/** The round trip, by induction over the value written. */
module HessianReadBack {
  import opened Options
  import opened Bytes
  import opened GoValues
  import opened HessianDecoding
  import opened HessianEncoding
  import opened HessianRoundTrip

  /** r is what reading an encoding in state s must give: exactly its bytes consumed,
      the tables coupled again, and a value that is the tree t, built from new objects. */
  ghost predicate ReadsBack(s: DState, r: R<GoVal>, e: Encoded, n: Need, t: Tree) {
    && r.Ok?
    && Advanced(s, r.st, e, n)
    && Rep(r.st.heap, |s.heap|, |r.st.heap|, r.v, t)
  }

  ghost predicate Advanced(s: DState, s': DState, e: Encoded, n: Need) {
    && s'.offset == s.offset + |e.bytes|
    && Coupled(e.defs, s'.classDefs)
    && |s'.refs| == |s.refs| + n.refs
    && |s'.types| == |s.types| + n.types
    && Learned(s.classDefs, s'.classDefs, n.used)
  }

  /** s stands at the encoding e of something that needs n, with tables coupled to defs. */
  ghost predicate Ready(inp: Input, s: DState, defs: Defs, e: Encoded, n: Need) {
    && Valid(inp, s)
    && Coupled(defs, s.classDefs)
    && At(inp, s.offset, e.bytes)
    && Cut(inp, s.offset + |e.bytes|)
    && Room(inp, s, n, e.defs)
  }

  lemma {:induction false} ScalarReadsBack(inp: Input, s: DState, v: Value, defs: Defs)
    requires v.Nil? || v.Bool? || v.Str? || v.Int? || v.Long? || v.Uint? || v.Uint64? || v.Float?
    requires Encode(v, defs).Some?
    requires Ready(inp, s, defs, Encode(v, defs).value, NeedOf(inp.limits, v, defs))
    ensures ReadsBack(s, ReadValue(inp, s), Encode(v, defs).value, NeedOf(inp.limits, v, defs), Image(v))
  {
    hide Valid, Safe, ReadValue, ReadTagged, Coupled, At, Cut, Encode, NeedOf, Image, Apart, Learned;
    ScalarShape(inp.limits, v, defs);
    var e := Encode(v, defs).value;
    assert e.bytes == [e.bytes[0]] + e.bytes[1..];
    AtByte(inp, s.offset, e.bytes[0], e.bytes[1..]);
    Enter(inp, s);
    ScalarTag(inp, s, v, defs);
    LearnedNothing(s.classDefs, {});
  }

  lemma {:induction false} ScalarShape(l: Limits, v: Value, defs: Defs)
    requires v.Nil? || v.Bool? || v.Str? || v.Int? || v.Long? || v.Uint? || v.Uint64? || v.Float?
    requires Encode(v, defs).Some?
    ensures Encode(v, defs).value.bytes != [] && Encode(v, defs).value.defs == defs
    ensures var n := NeedOf(l, v, defs); n.refs == 0 && n.types == 0 && n.depth == 1 && n.used == {}
    ensures Image(v).TLeaf? && !IsContainer(Image(v).leaf)
  {
    if v.Str? { StringStartsAscii(v.s); }
  }

  /** The scalar tags, one by one. */
  lemma {:induction false} ScalarTag(inp: Input, s: DState, v: Value, defs: Defs)
    requires v.Nil? || v.Bool? || v.Str? || v.Int? || v.Long? || v.Uint? || v.Uint64? || v.Float?
    requires Encode(v, defs).Some?
    requires Ready(inp, s, defs, Encode(v, defs).value, NeedOf(inp.limits, v, defs))
    requires s.offset < |inp.data| && inp.data[s.offset] == Encode(v, defs).value.bytes[0]
    requires At(inp, s.offset + 1, Encode(v, defs).value.bytes[1..])
    requires Valid(inp, s.(depth := s.depth + 1, offset := s.offset + 1))
    ensures ReadTagged(inp, s.(depth := s.depth + 1, offset := s.offset + 1), inp.data[s.offset])
         == Ok(Image(v).leaf, s.(depth := s.depth + 1, offset := s.offset + |Encode(v, defs).value.bytes|))
  {
    hide Valid, Safe, Be32, Be64, Wrap32, Wrap64, ReadInt32, ReadInt64, ReadBlob, ReadUint16, ReadByte, ReadRef;
    hide ReadList, ReadFixedTypedList, ReadMap, ReadObjectDefinition, ReadObjectInstance, ReadValue;
    hide ReadStringWithTag, EncodeString, Coupled;
    var e := Encode(v, defs).value;
    var s1 := s.(depth := s.depth + 1, offset := s.offset + 1);
    match v
    case Nil => {}
    case Bool(b) => {}
    case Str(t) => {
      DepthOnly(inp, s);
      StringRead(inp, s.(depth := s.depth + 1), t);
    }
    case Int(i) => {
      assert e.bytes[1..] == Be32(Wrap32(i));
      Int32Read(inp, s1, Wrap32(i));
      Wrap32Idempotent(i);
    }
    case Long(l) => {
      assert e.bytes[1..] == Be64(l);
      Int64Read(inp, s1, l);
      Wrap64Fixed(l);
    }
    case Uint(u) => {
      assert e.bytes[1..] == Be64(u);
      Int64Read(inp, s1, u);
    }
    case Uint64(u) => {
      assert e.bytes[1..] == Be64(u);
      Int64Read(inp, s1, u);
    }
    case Float(bits) => {
      assert e.bytes[1..] == Be64(bits);
      Int64Read(inp, s1, bits);
      Wrap64Fixed(bits);
    }
  }

  lemma {:induction false} DepthOnly(inp: Input, s: DState)
    requires Valid(inp, s) && s.depth < inp.limits.maxDepth
    ensures Valid(inp, s.(depth := s.depth + 1))
  {
  }

  lemma {:induction false} Wrap64Fixed(n: int)
    ensures -TWO_63 <= n < TWO_63 ==> Wrap64(n) == n
    ensures 0 <= n < TWO_64 ==> Wrap64(n) % TWO_64 == n
  {
  }

  // ------------------------------------------------------------------
  // Sequences of values

  ghost predicate RepAll(h: Heap, lo: nat, hi: nat, gs: seq<GoVal>, vs: seq<Value>) {
    |gs| == |vs| && forall i | 0 <= i < |vs| :: Rep(h, lo, hi, gs[i], Image(vs[i]))
  }

  lemma {:induction false} RepAllFrame(h: Heap, h': Heap, lo: nat, hi: nat, lo': nat, hi': nat, gs: seq<GoVal>, vs: seq<Value>)
    requires RepAll(h, lo, hi, gs, vs) && Agree(h, h', lo, hi)
    requires lo' <= lo && hi <= hi' <= |h'|
    ensures RepAll(h', lo', hi', gs, vs)
  {
    forall i | 0 <= i < |vs| ensures Rep(h', lo', hi', gs[i], Image(vs[i])) {
      RepFrame(h, h', lo, hi, lo', hi', gs[i], Image(vs[i]));
    }
  }

  /** The encoding of several values is that of the first and that of the others. */
  lemma {:induction false} HeadParts(ctx: Value, vs: seq<Value>, defs: Defs, e: Encoded)
    requires Below(ctx, vs) && vs != [] && EncodeSeq(ctx, vs, defs) == Some(e)
    ensures Encode(vs[0], defs).Some?
    ensures EncodeSeq(ctx, vs[1..], Encode(vs[0], defs).value.defs).Some?
    ensures var e0 := Encode(vs[0], defs).value;
            var e1 := EncodeSeq(ctx, vs[1..], e0.defs).value;
            e == Encoded(e0.bytes + e1.bytes, e1.defs) && |e0.defs| <= |e1.defs|
  {
    hide Encode;
  }

  lemma {:induction false} SeqStartsAscii(ctx: Value, vs: seq<Value>, defs: Defs)
    requires Below(ctx, vs) && EncodeSeq(ctx, vs, defs).Some?
    ensures var b := EncodeSeq(ctx, vs, defs).value.bytes; b != [] ==> b[0] < 0x80
  {
    hide Encode;
    if vs != [] {
      EncodingStartsAscii(vs[0], defs);
      assert EncodeSeq(ctx, vs, defs).value.bytes[0] == Encode(vs[0], defs).value.bytes[0];
    }
  }

  lemma {:induction false} ReadyParts(inp: Input, s: DState, defs: Defs, e: Encoded, n: Need, e0: Encoded, n0: Need, e1: Encoded, n1: Need)
    requires Ready(inp, s, defs, e, n) && n == Both(n0, n1)
    requires e == Encoded(e0.bytes + e1.bytes, e1.defs) && |e0.defs| <= |e1.defs|
    requires e1.bytes != [] ==> e1.bytes[0] < 0x80
    ensures Ready(inp, s, defs, e0, n0) && At(inp, s.offset + |e0.bytes|, e1.bytes)
  {
    hide Valid, Coupled, Cut, At, Apart;
    ApartParts(s.classDefs, n0.used, n1.used);
    AtParts(inp, s.offset, e0.bytes, e1.bytes);
    if e1.bytes == [] {
      assert e.bytes == e0.bytes;
    }
  }

  lemma {:induction false} BelowParts(ctx: Value, vs: seq<Value>)
    requires Below(ctx, vs) && vs != []
    ensures (vs[0].Str? || vs[0] < ctx) && Below(ctx, vs[1..])
  {
  }

  lemma {:induction false} HeadNeed(l: Limits, ctx: Value, vs: seq<Value>, defs: Defs)
    requires Below(ctx, vs) && vs != [] && Encode(vs[0], defs).Some?
    ensures SeqNeed(l, ctx, vs, defs) == Both(NeedOf(l, vs[0], defs), SeqNeed(l, ctx, vs[1..], Encode(vs[0], defs).value.defs))
    ensures SeqNeed(l, ctx, vs, defs).depth >= 1
  {
    hide Encode, NeedOf;
  }

  lemma {:induction false} ReadyValid(inp: Input, s: DState, defs: Defs, e: Encoded, n: Need)
    requires Ready(inp, s, defs, e, n)
    ensures Valid(inp, s) && Coupled(defs, s.classDefs)
  {
    hide Valid, Coupled;
  }

  /** What a value read back gives to those that read on. */
  lemma {:induction false} ValueRead(inp: Input, s: DState, e: Encoded, n: Need, t: Tree)
    requires Valid(inp, s) && ReadsBack(s, ReadValue(inp, s), e, n, t)
    ensures var r := ReadValue(inp, s);
            && r.Ok? && Valid(inp, r.st) && r.st.depth == s.depth && s.heap <= r.st.heap && ValidVal(r.st.heap, r.v)
            && s.offset < r.st.offset && Advanced(s, r.st, e, n) && Rep(r.st.heap, |s.heap|, |r.st.heap|, r.v, t)
  {
    hide ReadValue, Valid, Advanced, Rep;
  }

  /** Cuts the encoding of several values into that of the first and of the others. */
  lemma {:induction false} HeadReady(inp: Input, s: DState, ctx: Value, vs: seq<Value>, defs: Defs, e: Encoded, n: Need)
    requires Below(ctx, vs) && vs != [] && EncodeSeq(ctx, vs, defs) == Some(e)
    requires n == SeqNeed(inp.limits, ctx, vs, defs)
    requires Ready(inp, s, defs, e, n)
    ensures Encode(vs[0], defs).Some?
    ensures EncodeSeq(ctx, vs[1..], Encode(vs[0], defs).value.defs).Some?
    ensures var e0 := Encode(vs[0], defs).value;
            var e1 := EncodeSeq(ctx, vs[1..], e0.defs).value;
            && Ready(inp, s, defs, e0, NeedOf(inp.limits, vs[0], defs))
            && e.bytes == e0.bytes + e1.bytes && e.defs == e1.defs
            && n == Both(NeedOf(inp.limits, vs[0], defs), SeqNeed(inp.limits, ctx, vs[1..], e0.defs))
            && At(inp, s.offset + |e0.bytes|, e1.bytes)
  {
    hide *;
    HeadParts(ctx, vs, defs, e);
    HeadNeed(inp.limits, ctx, vs, defs);
    BelowParts(ctx, vs);
    var e0 := Encode(vs[0], defs).value;
    SeqStartsAscii(ctx, vs[1..], e0.defs);
    ReadyParts(inp, s, defs, e, n, e0, NeedOf(inp.limits, vs[0], defs),
               EncodeSeq(ctx, vs[1..], e0.defs).value, SeqNeed(inp.limits, ctx, vs[1..], e0.defs));
  }

  /** Moving on to the others once the first has been read. */
  lemma {:induction false} TailReady(inp: Input, s: DState, s1: DState, defs: Defs, e: Encoded, n: Need,
                                     e0: Encoded, n0: Need, e1: Encoded, n1: Need)
    requires Ready(inp, s, defs, e, n) && Valid(inp, s1) && s1.depth == s.depth
    requires Advanced(s, s1, e0, n0)
    requires e.bytes == e0.bytes + e1.bytes && e.defs == e1.defs && n == Both(n0, n1)
    requires At(inp, s.offset + |e0.bytes|, e1.bytes)
    ensures Ready(inp, s1, e0.defs, e1, n1)
  {
    hide Valid, Coupled, At, Cut, Apart, Learned;
    ApartOn(s.classDefs, s1.classDefs, n0.used, n1.used);
  }

  /** The one read, then the other. */
  lemma {:induction false} AdvancedBoth(s: DState, s1: DState, s1': DState, s2: DState, e0: Encoded, n0: Need, e1: Encoded, n1: Need, e: Encoded)
    requires Advanced(s, s1, e0, n0) && s1' == s1.(heap := s1'.heap) && Advanced(s1', s2, e1, n1)
    requires e.bytes == e0.bytes + e1.bytes && e.defs == e1.defs
    ensures Advanced(s, s2, e, Both(n0, n1))
  {
    hide Coupled, Learned;
    LearnedBoth(s.classDefs, s1.classDefs, s2.classDefs, n0.used, n1.used);
  }

  lemma {:induction false} AdvancedNothing(s: DState, defs: Defs)
    requires Coupled(defs, s.classDefs)
    ensures Advanced(s, s, Encoded([], defs), Need(0, 0, 0, true, {}))
  {
    hide Coupled, Learned;
    LearnedNothing(s.classDefs, {});
  }

  lemma {:induction false} RepAllEmpty(h: Heap)
    ensures RepAll(h, |h|, |h|, [], [])
  {
  }

  /** One item, then the others, on top of those read before. */
  lemma {:induction false} RepAllStep(h1: Heap, h': Heap, lo: nat, acc: seq<GoVal>, g: GoVal, gs: seq<GoVal>, vs: seq<Value>)
    requires vs != [] && lo <= |h1| && h1 <= h'
    requires Rep(h1, lo, |h1|, g, Image(vs[0]))
    requires |gs| == |acc| + |vs| && gs[..|acc| + 1] == acc + [g]
    requires RepAll(h', |h1|, |h'|, gs[|acc| + 1..], vs[1..])
    ensures gs[..|acc|] == acc && RepAll(h', lo, |h'|, gs[|acc|..], vs)
  {
    hide Image, Rep;
    var tail := gs[|acc| + 1..];
    RepFrame(h1, h', lo, |h1|, lo, |h'|, g, Image(vs[0]));
    RepAllFrame(h', h', |h1|, |h'|, lo, |h'|, tail, vs[1..]);
    assert gs[..|acc|] == gs[..|acc| + 1][..|acc|];
    assert gs[|acc|] == gs[..|acc| + 1][|acc|];
    assert gs[|acc|..] == [g] + tail;
    assert vs == [vs[0]] + vs[1..];
  }

  lemma {:induction false} ItemsReadBack(inp: Input, s: DState, ctx: Value, vs: seq<Value>, defs: Defs, e: Encoded, n: Need, acc: seq<GoVal>)
    requires Below(ctx, vs) && EncodeSeq(ctx, vs, defs) == Some(e)
    requires n == SeqNeed(inp.limits, ctx, vs, defs)
    requires Ready(inp, s, defs, e, n)
    requires |acc| + |vs| <= inp.limits.maxItems && ValidVals(s.heap, acc)
    ensures ReadItems(inp, s, |vs|, acc).Ok?
    ensures var r := ReadItems(inp, s, |vs|, acc);
            && Advanced(s, r.st, e, n)
            && |r.v| == |acc| + |vs| && r.v[..|acc|] == acc
            && RepAll(r.st.heap, |s.heap|, |r.st.heap|, r.v[|acc|..], vs)
    decreases true, ctx, 0, |vs|, 1
  {
    hide *;
    ReadyValid(inp, s, defs, e, n);
    if vs == [] {
      NoItems(inp, s, ctx, defs, acc);
      RepAllEmpty(s.heap);
      AdvancedNothing(s, defs);
      assert acc[|acc|..] == [];
    } else {
      HeadReady(inp, s, ctx, vs, defs, e, n);
      BelowParts(ctx, vs);
      var e0, n0 := Encode(vs[0], defs).value, NeedOf(inp.limits, vs[0], defs);
      var e1, n1 := EncodeSeq(ctx, vs[1..], e0.defs).value, SeqNeed(inp.limits, ctx, vs[1..], e0.defs);
      ValueReadsBack(inp, s, vs[0], defs, e0, n0);
      ValueRead(inp, s, e0, n0, Image(vs[0]));
      var r0 := ReadValue(inp, s);
      TailReady(inp, s, r0.st, defs, e, n, e0, n0, e1, n1);
      ItemsTurn(inp, s, |vs|, acc);
      ItemsReadBack(inp, r0.st, ctx, vs[1..], e0.defs, e1, n1, acc + [r0.v]);
      var r := ReadItems(inp, s, |vs|, acc);
      AdvancedBoth(s, r0.st, r0.st, r.st, e0, n0, e1, n1, e);
      HeapKept(inp, r0.st, |vs| - 1, acc + [r0.v]);
      RepAllStep(r0.st.heap, r.st.heap, |s.heap|, acc, r0.v, r.v, vs);
    }
  }

  lemma {:induction false} NoItems(inp: Input, s: DState, ctx: Value, defs: Defs, acc: seq<GoVal>)
    requires Valid(inp, s) && |acc| <= inp.limits.maxItems && ValidVals(s.heap, acc)
    ensures ReadItems(inp, s, 0, acc) == Ok(acc, s)
    ensures Below(ctx, []) && EncodeSeq(ctx, [], defs) == Some(Encoded([], defs))
    ensures SeqNeed(inp.limits, ctx, [], defs) == Need(0, 0, 0, true, {})
  {
    hide Valid;
  }

  lemma {:induction false} ItemsTurn(inp: Input, s: DState, n: nat, acc: seq<GoVal>)
    requires Valid(inp, s) && 0 < n && |acc| + n <= inp.limits.maxItems && ValidVals(s.heap, acc) && ReadValue(inp, s).Ok?
    ensures var r := ReadValue(inp, s);
            && Valid(inp, r.st) && ValidVals(r.st.heap, acc + [r.v])
            && ReadItems(inp, s, n, acc) == ReadItems(inp, r.st, n - 1, acc + [r.v])
  {
    hide ReadValue, Valid, ValidVal;
    ValidValsGrow(s.heap, ReadValue(inp, s).st.heap, acc);
  }

  lemma {:induction false} HeapKept(inp: Input, s: DState, n: nat, acc: seq<GoVal>)
    requires Valid(inp, s) && |acc| + n <= inp.limits.maxItems && ValidVals(s.heap, acc) && ReadItems(inp, s, n, acc).Ok?
    ensures s.heap <= ReadItems(inp, s, n, acc).st.heap
  {
    hide ReadItems, Valid;
  }

  // ------------------------------------------------------------------
  // Lists

  /** The bytes of a container, part by part, where the reader meets them: tag, type,
      length (if any), contents and the closing 'z'. */
  lemma {:induction false} ContainerParts(inp: Input, o: nat, tag: byte, t: seq<byte>, l: seq<byte>, body: seq<byte>)
    requires At(inp, o, [tag] + (t + (l + (body + ['z' as int]))))
    requires l != [] ==> l[0] < 0x80
    requires l == [] && body != [] ==> body[0] < 0x80
    ensures o < |inp.data| && inp.data[o] == tag
    ensures At(inp, o + 1, t) && Cut(inp, o + 1 + |t|)
    ensures At(inp, o + 1 + |t|, l)
    ensures At(inp, o + 1 + |t| + |l|, body) && Cut(inp, o + 1 + |t| + |l| + |body|)
    ensures o + 1 + |t| + |l| + |body| < |inp.data| && inp.data[o + 1 + |t| + |l| + |body|] == 'z' as int
  {
    hide At, Cut;
    var lbz := l + (body + ['z' as int]);
    AtByte(inp, o, tag, t + lbz);
    FirstByte(l, body);
    AtParts(inp, o + 1, t, lbz);
    ContentParts(inp, o + 1 + |t|, l, body);
  }

  lemma {:induction false} FirstByte(l: seq<byte>, body: seq<byte>)
    requires l != [] ==> l[0] < 0x80
    requires l == [] && body != [] ==> body[0] < 0x80
    ensures (l + (body + ['z' as int]))[0] < 0x80
  {
  }

  lemma {:induction false} ContentParts(inp: Input, o: nat, l: seq<byte>, body: seq<byte>)
    requires At(inp, o, l + (body + ['z' as int]))
    ensures At(inp, o, l) && At(inp, o + |l|, body) && Cut(inp, o + |l| + |body|)
    ensures o + |l| + |body| < |inp.data| && inp.data[o + |l| + |body|] == 'z' as int
  {
    hide At, Cut;
    AtParts(inp, o, l, body + ['z' as int]);
    AtParts(inp, o + |l|, body, ['z' as int]);
    EndByte(inp, o + |l| + |body|);
  }

  lemma {:induction false} EndByte(inp: Input, o: nat)
    requires At(inp, o, ['z' as int])
    ensures o < |inp.data| && inp.data[o] == 'z' as int
  {
    assert inp.data[o..o + 1][0] == 'z' as int;
  }

  /** Storing the items and the typed wrapper, and numbering it. */
  lemma {:induction false} FinishReadsBack(inp: Input, s: DState, typeName: GoString, items: seq<GoVal>, lo: nat, vs: seq<Value>)
    requires Valid(inp, s) && |items| <= inp.limits.maxItems && ValidVals(s.heap, items)
    requires |s.refs| < inp.limits.maxRefs
    requires lo <= |s.heap| && RepAll(s.heap, lo, |s.heap|, items, vs)
    ensures FinishList(inp, s, typeName, items, true).Ok?
    ensures var r := FinishList(inp, s, typeName, items, true);
            && r.st == s.(heap := r.st.heap, refs := s.refs + [r.v])
            && Rep(r.st.heap, lo, |r.st.heap|, r.v, ListImage(typeName, Images(vs)))
  {
    hide Valid, Image;
    var r := FinishList(inp, s, typeName, items, true);
    var h' := r.st.heap;
    var a := |s.heap|;
    assert h' == s.heap + [OSlice(items)] + [OMap(TypedEntries(typeName, Ascii("items"), GSlice(a)))];
    RepAllFrame(s.heap, h', lo, a, lo, |h'|, items, vs);
    assert h'[a] == OSlice(items);
    assert Rep(h', lo, |h'|, GSlice(a), TSlice(Images(vs)));
    assert |Ascii("type")| != |Ascii("items")|;
    assert h'[a + 1].entries.Keys == {Ascii("type"), Ascii("items")};
  }

  /** From the tag of a typed list to its first item. */
  lemma {:induction false} ListHeadRead(inp: Input, s: DState, typeName: GoString, len: nat)
    requires Valid(inp, s) && s.depth < inp.limits.maxDepth
    requires At(inp, s.offset + 1, EncodeType(typeName)) && Cut(inp, s.offset + 1 + |EncodeType(typeName)|)
    requires At(inp, s.offset + 1 + |EncodeType(typeName)|, EncodeLength(len))
    requires TypeNameFits(inp.limits, typeName) && CountFits(inp.limits, len) && |s.types| < inp.limits.maxRefs
    ensures var s1 := s.(depth := s.depth + 1, offset := s.offset + 1);
            var s2 := s1.(offset := s1.offset + |EncodeType(typeName)|, types := s.types + [typeName]);
            var s3 := s2.(offset := s2.offset + |EncodeLength(len)|);
            && Valid(inp, s1) && Valid(inp, s2) && Valid(inp, s3)
            && ReadType(inp, s1) == Ok(typeName, s2)
            && ReadLength(inp, s2) == Ok(len, s3)
  {
    hide ReadType, EncodeType, EncodeLength, RuneCount, Cut;
    var s1 := s.(depth := s.depth + 1, offset := s.offset + 1);
    TypeRead(inp, s1, typeName);
    LengthRead(inp, ReadType(inp, s1).st, len);
  }

  /** From the tag of a typed list to its items, which are ready to be read. */
  lemma {:induction false} ListOpened(inp: Input, s: DState, defs: Defs, typeName: GoString, len: nat, body: Encoded, need: Need)
    returns (s1: DState, s2: DState, s3: DState)
    requires Ready(inp, s, defs, Encoded(['V' as int] + (EncodeType(typeName) + (EncodeLength(len) + (body.bytes + ['z' as int]))), body.defs),
                   Need(need.refs + 1, need.types + 1, need.depth + 1,
                        need.sized && TypeNameFits(inp.limits, typeName) && CountFits(inp.limits, len), need.used))
    ensures s.offset < |inp.data| && inp.data[s.offset] == 'V' as int
    ensures s1 == s.(depth := s.depth + 1, offset := s.offset + 1) && Valid(inp, s1)
    ensures s2 == s1.(offset := s1.offset + |EncodeType(typeName)|, types := s.types + [typeName]) && Valid(inp, s2)
    ensures s3 == s2.(offset := s2.offset + |EncodeLength(len)|) && Ready(inp, s3, defs, body, need)
    ensures ReadType(inp, s1) == Ok(typeName, s2) && ReadLength(inp, s2) == Ok(len, s3)
    ensures len <= inp.limits.maxItems && |s3.refs| < inp.limits.maxRefs
    ensures s3.offset + |body.bytes| < |inp.data| && inp.data[s3.offset + |body.bytes|] == 'z' as int
  {
    hide Valid, Coupled, ReadType, ReadLength, EncodeType, EncodeLength, RuneCount, At, Cut, Apart;
    LengthStartsAscii(len);
    ContainerParts(inp, s.offset, 'V' as int, EncodeType(typeName), EncodeLength(len), body.bytes);
    ListHeadRead(inp, s, typeName, len);
    s1 := s.(depth := s.depth + 1, offset := s.offset + 1);
    s2 := ReadType(inp, s1).st;
    s3 := ReadLength(inp, s2).st;
  }

  /** From the last item of a typed list to its end. */
  lemma {:induction false} ListClosed(inp: Input, s: DState, typeName: GoString, len: nat, s2: DState, s3: DState, r: R<seq<GoVal>>)
    requires Valid(inp, s) && ReadType(inp, s) == Ok(typeName, s2) && typeName != []
    requires Valid(inp, s2) && ReadLength(inp, s2) == Ok(len, s3)
    requires Valid(inp, s3) && len <= inp.limits.maxItems && ReadItems(inp, s3, len, []) == r && r.Ok?
    ensures Valid(inp, SkipEnd(inp, r.st)) && ValidVals(SkipEnd(inp, r.st).heap, r.v) && |r.v| <= inp.limits.maxItems
    ensures ReadTagged(inp, s, 'V' as int) == FinishList(inp, SkipEnd(inp, r.st), typeName, r.v, true)
  {
    hide ReadType, ReadLength, ReadItems, FinishList, Grew, ReadTagged;
    ListTagged(inp, s);
    AtMostEnd(inp, r.st);
    hide Valid;
  }

  lemma {:induction false} AtMostEnd(inp: Input, s: DState)
    requires Valid(inp, s)
    ensures Valid(inp, SkipEnd(inp, s)) && SkipEnd(inp, s).heap == s.heap
  {
  }

  lemma {:induction false} ListReadsBack(inp: Input, s: DState, ctx: Value, typeName: GoString, vs: seq<Value>, defs: Defs, e: Encoded, n: Need)
    requires Below(ctx, vs) && typeName != []
    requires EncodeList(ctx, typeName, vs, defs) == Some(e) && n == ListNeed(inp.limits, ctx, typeName, vs, defs)
    requires Ready(inp, s, defs, e, n)
    ensures ReadsBack(s, ReadValue(inp, s), e, n, ListImage(typeName, Images(vs)))
    decreases true, ctx, 1, 0, 0
  {
    hide Valid, Coupled, Encode, NeedOf, EncodeSeq, SeqNeed, ReadValue, ReadTagged, ReadType, ReadLength, EncodeType, EncodeLength, RuneCount;
    hide At, Cut, Rep, ListImage, Images, RepAll, FinishList, ReadItems, Apart, Learned, Below;
    var body := EncodeSeq(ctx, vs, defs).value;
    var need := SeqNeed(inp.limits, ctx, vs, defs);
    var s1, s2, s3 := ListOpened(inp, s, defs, typeName, |vs|, body, need);
    ItemsReadBack(inp, s3, ctx, vs, defs, body, need, []);
    var r := ReadItems(inp, s3, |vs|, []);
    assert r.v[0..] == r.v;
    AtEnd(inp, r.st);
    ListClosed(inp, s1, typeName, |vs|, s2, s3, r);
    FinishReadsBack(inp, SkipEnd(inp, r.st), typeName, r.v, |s.heap|, vs);
    Enter(inp, s);
  }

  lemma {:induction false} ListTagged(inp: Input, s: DState)
    requires Valid(inp, s)
    ensures ReadTagged(inp, s, 'V' as int) == ReadList(inp, s)
  {
    hide ReadList;
  }

  lemma {:induction false} LengthStartsAscii(n: nat)
    ensures EncodeLength(n) != [] && EncodeLength(n)[0] < 0x80
  {
  }

  lemma {:induction false} AtEnd(inp: Input, s: DState)
    requires Valid(inp, s) && s.offset < |inp.data| && inp.data[s.offset] == 'z' as int
    ensures SkipEnd(inp, s) == s.(offset := s.offset + 1) && Valid(inp, SkipEnd(inp, s))
  {
  }

  // ------------------------------------------------------------------
  // Filling maps and objects

  /** The map at a gained exactly the keys ks, holding the images of vs, and kept the rest. */
  ghost predicate Filled(h: Heap, h': Heap, a: nat, ks: seq<GoString>, vs: seq<Value>) {
    && |ks| == |vs|
    && a < |h| <= |h'| && h[a].OMap? && h'[a].OMap?
    && (forall k :: k in h'[a].entries <==> k in h[a].entries || k in ks)
    && (forall k | k in h[a].entries && k !in ks :: h'[a].entries[k] == h[a].entries[k])
    && (forall i | 0 <= i < |ks| :: Rep(h', |h|, |h'|, h'[a].entries[ks[i]], Image(vs[i])))
  }

  ghost predicate Distinct(ks: seq<GoString>) {
    forall i, j | 0 <= i < j < |ks| :: ks[i] != ks[j]
  }

  /** One value read and put under the first key, then the others filled in. */
  lemma {:induction false} FilledStep(h: Heap, h1: Heap, g: GoVal, h': Heap, a: nat, ks: seq<GoString>, vs: seq<Value>)
    requires ks != [] && |ks| == |vs| && Distinct(ks)
    requires a < |h| && h[a].OMap? && h <= h1
    requires Rep(h1, |h|, |h1|, g, Image(vs[0]))
    requires Filled(PutEntry(h1, a, ks[0], g), h', a, ks[1..], vs[1..])
    requires forall i | a < i < |h1| :: h'[i] == h1[i]
    ensures Filled(h, h', a, ks, vs)
  {
    hide Image;
    var h2 := PutEntry(h1, a, ks[0], g);
    assert h1[a] == h[a];
    assert ks[0] !in ks[1..];
    assert ks == [ks[0]] + ks[1..];
    forall i | 0 <= i < |ks| ensures Rep(h', |h|, |h'|, h'[a].entries[ks[i]], Image(vs[i])) {
      if i == 0 {
        RepFrame(h1, h', |h|, |h1|, |h|, |h'|, g, Image(vs[0]));
      } else {
        assert ks[i] == ks[1..][i - 1] && vs[i] == vs[1..][i - 1];
        RepFrame(h', h', |h2|, |h'|, |h|, |h'|, h'[a].entries[ks[i]], Image(vs[i]));
      }
    }
  }

  /** The table bookkeeping of putting an entry. */
  lemma {:induction false} PutReady(inp: Input, s: DState, a: nat, key: GoString, g: GoVal, defs: Defs, e: Encoded, n: Need)
    requires Ready(inp, s, defs, e, n) && a < |s.heap| && s.heap[a].OMap? && ValidVal(s.heap, g)
    requires |s.heap[a].entries| < inp.limits.maxItems + 3
    ensures Ready(inp, s.(heap := PutEntry(s.heap, a, key, g)), defs, e, n)
  {
    hide Valid, Coupled, At, Cut, PutEntry, Apart;
    PutValid(inp, s, a, key, g);
  }

  lemma {:induction false} FieldsReadBack(inp: Input, s: DState, ctx: Value, ks: seq<GoString>, vs: seq<Value>, defs: Defs, e: Encoded, n: Need, a: nat)
    requires Below(ctx, vs) && EncodeSeq(ctx, vs, defs) == Some(e)
    requires n == SeqNeed(inp.limits, ctx, vs, defs)
    requires Ready(inp, s, defs, e, n)
    requires |ks| == |vs| && Distinct(ks)
    requires a < |s.heap| && s.heap[a].OMap? && |s.heap[a].entries| + |ks| <= inp.limits.maxItems
    ensures ReadFields(inp, s, a, ks).Ok?
    ensures var r := ReadFields(inp, s, a, ks);
            Advanced(s, r.st, e, n) && Filled(s.heap, r.st.heap, a, ks, vs)
    decreases true, ctx, 0, |vs|, 1
  {
    hide *;
    ReadyValid(inp, s, defs, e, n);
    if vs == [] {
      NoFields(inp, s, ctx, defs, a);
      AdvancedNothing(s, defs);
      FilledNothing(s.heap, a);
    } else {
      HeadReady(inp, s, ctx, vs, defs, e, n);
      BelowParts(ctx, vs);
      DistinctTail(ks);
      var e0, n0 := Encode(vs[0], defs).value, NeedOf(inp.limits, vs[0], defs);
      var e1, n1 := EncodeSeq(ctx, vs[1..], e0.defs).value, SeqNeed(inp.limits, ctx, vs[1..], e0.defs);
      ValueReadsBack(inp, s, vs[0], defs, e0, n0);
      ValueRead(inp, s, e0, n0, Image(vs[0]));
      var r0 := ReadValue(inp, s);
      TailReady(inp, s, r0.st, defs, e, n, e0, n0, e1, n1);
      var s2 := FieldTurn(inp, s, a, ks);
      PutReady(inp, r0.st, a, ks[0], r0.v, e0.defs, e1, n1);
      FieldsReadBack(inp, s2, ctx, ks[1..], vs[1..], e0.defs, e1, n1, a);
      var r := ReadFields(inp, s2, a, ks[1..]);
      AdvancedBoth(s, r0.st, s2, r.st, e0, n0, e1, n1, e);
      FilledStep(s.heap, r0.st.heap, r0.v, r.st.heap, a, ks, vs);
    }
  }

  lemma {:induction false} NoFields(inp: Input, s: DState, ctx: Value, defs: Defs, a: nat)
    requires Valid(inp, s) && a < |s.heap| && s.heap[a].OMap? && |s.heap[a].entries| <= inp.limits.maxItems
    ensures ReadFields(inp, s, a, []) == Ok((), s)
    ensures Below(ctx, []) && EncodeSeq(ctx, [], defs) == Some(Encoded([], defs))
    ensures SeqNeed(inp.limits, ctx, [], defs) == Need(0, 0, 0, true, {})
  {
    hide Valid;
  }

  /** One turn of the loop over fields; those that follow leave newer objects alone. */
  lemma {:induction false} FieldTurn(inp: Input, s: DState, a: nat, ks: seq<GoString>) returns (s2: DState)
    requires Valid(inp, s) && a < |s.heap| && s.heap[a].OMap? && |s.heap[a].entries| + |ks| <= inp.limits.maxItems
    requires ks != [] && ReadValue(inp, s).Ok?
    ensures var r := ReadValue(inp, s);
            && a < |r.st.heap| && r.st.heap[a] == s.heap[a] && ValidVal(r.st.heap, r.v)
            && s2 == r.st.(heap := PutEntry(r.st.heap, a, ks[0], r.v)) && |s2.heap| == |r.st.heap|
            && forall i | 0 <= i < |s2.heap| && i != a :: s2.heap[i] == r.st.heap[i]
    ensures Valid(inp, s2) && a < |s2.heap| && s2.heap[a].OMap? && |s2.heap[a].entries| + |ks[1..]| <= inp.limits.maxItems
    ensures ReadFields(inp, s, a, ks) == ReadFields(inp, s2, a, ks[1..])
    ensures var r := ReadFields(inp, s2, a, ks[1..]);
            r.Ok? ==> |s2.heap| <= |r.st.heap| && forall i | a < i < |s2.heap| :: r.st.heap[i] == s2.heap[i]
  {
    hide ReadValue, ValidHeap;
    var r := ReadValue(inp, s);
    FieldPut(inp, s, r.st, a, ks[0], r.v);
    PutSize(r.st.heap, a, ks[0], r.v);
    s2 := r.st.(heap := PutEntry(r.st.heap, a, ks[0], r.v));
    hide Valid, PutEntry, Grew;
  }

  // ------------------------------------------------------------------
  // Maps

  lemma {:induction false} KeyRead(inp: Input, s: DState, key: GoString)
    requires Valid(inp, s) && s.depth < inp.limits.maxDepth
    requires EncodeString(key).Some? && ScalarFits(inp.limits, key)
    requires At(inp, s.offset, EncodeString(key).value) && Cut(inp, s.offset + |EncodeString(key).value|)
    ensures ReadValue(inp, s) == Ok(GString(key), s.(offset := s.offset + |EncodeString(key).value|))
  {
    hide Valid, Safe, At, Cut, ReadStringWithTag, EncodeString, ReadValue;
    hide ReadList, ReadFixedTypedList, ReadMap, ReadObjectDefinition, ReadObjectInstance, ReadBlob, ReadNumber;
    DepthOnly(inp, s);
    StringRead(inp, s.(depth := s.depth + 1), key);
    Enter(inp, s);
  }

  lemma {:induction false} EntriesStartAscii(ctx: Value, ks: seq<GoString>, vs: seq<Value>, defs: Defs)
    requires |ks| == |vs| && Below(ctx, vs) && EncodeEntries(ctx, ks, vs, defs).Some?
    ensures EncodeEntries(ctx, ks, vs, defs).value.bytes != []
    ensures EncodeEntries(ctx, ks, vs, defs).value.bytes[0] < 0x80
    ensures var b := EncodeEntries(ctx, ks, vs, defs).value.bytes[0];
            b != 't' as int && b != 'T' as int && b != 0x75 && (vs != [] ==> b != 'z' as int)
  {
    hide EncodeString;
    if vs != [] { StringStartsAscii(ks[0]); }
  }

  lemma {:induction false} AtFirst(inp: Input, o: nat, bytes: seq<byte>)
    requires At(inp, o, bytes) && bytes != []
    ensures o < |inp.data| && inp.data[o] == bytes[0]
  {
    assert inp.data[o..o + |bytes|][0] == bytes[0];
  }

  /** The encoding of a map's entries, cut behind the first pair. */
  lemma {:induction false} PairParts(ctx: Value, ks: seq<GoString>, vs: seq<Value>, defs: Defs, e: Encoded) returns (e0: Encoded, e1: Encoded)
    requires |ks| == |vs| && Below(ctx, vs) && vs != [] && EncodeEntries(ctx, ks, vs, defs) == Some(e)
    ensures EncodeString(ks[0]).Some? && Encode(vs[0], defs) == Some(e0)
    ensures EncodeEntries(ctx, ks[1..], vs[1..], e0.defs) == Some(e1)
    ensures e == Encoded(EncodeString(ks[0]).value + (e0.bytes + e1.bytes), e1.defs)
    ensures e0.bytes != [] && e0.bytes[0] < 0x80 && e1.bytes != [] && e1.bytes[0] < 0x80
    ensures |e0.defs| <= |e1.defs|
  {
    hide Encode, EncodeString;
    e0 := Encode(vs[0], defs).value;
    e1 := EncodeEntries(ctx, ks[1..], vs[1..], e0.defs).value;
    EncodingStartsAscii(vs[0], defs);
    EntriesStartAscii(ctx, ks[1..], vs[1..], e0.defs);
  }

  /** Where the parts of a pair are. */
  lemma {:induction false} PairPositions(inp: Input, o: nat, key: seq<byte>, b0: seq<byte>, b1: seq<byte>)
    requires At(inp, o, key + (b0 + b1)) && b0 != [] && b0[0] < 0x80 && b1 != [] && b1[0] < 0x80
    ensures At(inp, o, key) && Cut(inp, o + |key|)
    ensures At(inp, o + |key|, b0 + b1) && At(inp, o + |key|, b0) && Cut(inp, o + |key| + |b0|)
    ensures At(inp, o + |key| + |b0|, b1)
    ensures o + |key| <= |inp.data|
  {
    hide At, Cut;
    AtParts(inp, o, key, b0 + b1);
    AtParts(inp, o + |key|, b0, b1);
    AtWithin(inp, o, key);
  }

  /** The first pair read, the others ready. */
  lemma {:induction false} PairReady(inp: Input, s: DState, ctx: Value, ks: seq<GoString>, vs: seq<Value>, defs: Defs, e: Encoded, n: Need) returns (s1: DState, e0: Encoded, e1: Encoded)
    requires |ks| == |vs| && Below(ctx, vs) && vs != [] && EncodeEntries(ctx, ks, vs, defs) == Some(e)
    requires n == SeqNeed(inp.limits, ctx, vs, defs)
    requires Ready(inp, s, defs, e, n) && ScalarFits(inp.limits, ks[0])
    ensures EncodeString(ks[0]).Some? && Encode(vs[0], defs) == Some(e0)
    ensures EncodeEntries(ctx, ks[1..], vs[1..], e0.defs) == Some(e1)
    ensures e == Encoded(EncodeString(ks[0]).value + (e0.bytes + e1.bytes), e1.defs)
    ensures s1 == s.(offset := s.offset + |EncodeString(ks[0]).value|)
    ensures s.offset < |inp.data| && inp.data[s.offset] != 'z' as int
    ensures ReadValue(inp, s) == Ok(GString(ks[0]), s1)
    ensures Ready(inp, s1, defs, Encoded(e0.bytes + e1.bytes, e1.defs), n)
    ensures Ready(inp, s1, defs, e0, NeedOf(inp.limits, vs[0], defs))
    ensures At(inp, s1.offset + |e0.bytes|, e1.bytes)
  {
    hide *;
    e0, e1 := PairParts(ctx, ks, vs, defs, e);
    HeadNeed(inp.limits, ctx, vs, defs);
    var key := EncodeString(ks[0]).value;
    s1 := s.(offset := s.offset + |key|);
    BelowParts(ctx, vs);
    PairKeyRead(inp, s, defs, e, n, ks[0], e0.bytes, e1.bytes);
    ReadyParts(inp, s1, defs, Encoded(e0.bytes + e1.bytes, e1.defs), n, e0, NeedOf(inp.limits, vs[0], defs),
               e1, SeqNeed(inp.limits, ctx, vs[1..], e0.defs));
  }

  /** The key of the first pair read, its value and the others ready. */
  lemma {:induction false} PairKeyRead(inp: Input, s: DState, defs: Defs, e: Encoded, n: Need, key: GoString, b0: seq<byte>, b1: seq<byte>)
    requires Ready(inp, s, defs, e, n) && n.depth >= 1 && ScalarFits(inp.limits, key) && EncodeString(key).Some?
    requires e.bytes == EncodeString(key).value + (b0 + b1)
    requires b0 != [] && b0[0] < 0x80 && b1 != [] && b1[0] < 0x80
    ensures var s1 := s.(offset := s.offset + |EncodeString(key).value|);
            && s.offset < |inp.data| && inp.data[s.offset] != 'z' as int
            && ReadValue(inp, s) == Ok(GString(key), s1)
            && Ready(inp, s1, defs, Encoded(b0 + b1, e.defs), n)
  {
    hide Valid, Coupled, Cut, At, ReadValue, EncodeString, Safe, Apart;
    StringStartsAscii(key);
    AtFirst(inp, s.offset, e.bytes);
    PairPositions(inp, s.offset, EncodeString(key).value, b0, b1);
    KeyRead(inp, s, key);
    Moved(inp, s, s.offset + |EncodeString(key).value|);
  }

  /** A key that is a string and its value, read and stored. */
  lemma {:induction false} PairStored(inp: Input, s: DState, s1: DState, s2: DState, key: GoString, g: GoVal, a: nat)
    requires Valid(inp, s) && a < |s.heap| && s.heap[a].OMap? && |s.heap[a].entries| <= inp.limits.maxItems
    requires ReadValue(inp, s) == Ok(GString(key), s1) && ReadValue(inp, s1) == Ok(g, s2)
    ensures s2.heap[a] == s.heap[a] && |s.heap| <= |s2.heap|
    ensures ValidVal(s2.heap, g)
    ensures ReadPair(inp, s, a) == Ok((), s2.(heap := PutEntry(s2.heap, a, key, g)))
    ensures |PutEntry(s2.heap, a, key, g)| == |s2.heap| && PutEntry(s2.heap, a, key, g)[a].OMap?
    ensures |PutEntry(s2.heap, a, key, g)[a].entries| <= |s.heap[a].entries| + 1
    ensures forall i | 0 <= i < |s2.heap| && i != a :: PutEntry(s2.heap, a, key, g)[i] == s2.heap[i]
  {
    hide Valid, ReadValue;
    PutSize(s2.heap, a, key, g);
  }

  /** A pair read, then the others: where that leaves the reader. */
  lemma {:induction false} PairAdvanced(s: DState, s1: DState, s2: DState, s3: DState, s4: DState, key: seq<byte>, e0: Encoded, n0: Need, e1: Encoded, n1: Need, e: Encoded)
    requires s1 == s.(offset := s.offset + |key|) && Advanced(s1, s2, e0, n0)
    requires s3 == s2.(heap := s3.heap) && Advanced(s3, s4, e1, n1)
    requires e == Encoded(key + (e0.bytes + e1.bytes), e1.defs)
    ensures Advanced(s, s4, e, Both(n0, n1))
  {
    hide Coupled;
  }

  /** The first pair of a map read back and stored, and the reader ready for the others. */
  lemma {:induction false} PairReadBack(inp: Input, s: DState, ctx: Value, ks: seq<GoString>, vs: seq<Value>, defs: Defs, e: Encoded, n: Need, a: nat)
    returns (s2: DState, h1: Heap, g: GoVal, e0: Encoded, e1: Encoded)
    requires |ks| == |vs| && vs != [] && Below(ctx, vs) && EncodeEntries(ctx, ks, vs, defs) == Some(e)
    requires n == SeqNeed(inp.limits, ctx, vs, defs)
    requires Ready(inp, s, defs, e, n) && ScalarFits(inp.limits, ks[0])
    requires a < |s.heap| && s.heap[a].OMap? && |s.heap[a].entries| <= inp.limits.maxItems
    ensures Encode(vs[0], defs) == Some(e0) && EncodeEntries(ctx, ks[1..], vs[1..], e0.defs) == Some(e1)
    ensures s.offset < |inp.data| && !Peeks(inp, s, 'z' as int)
    ensures ReadPair(inp, s, a) == Ok((), s2)
    ensures Ready(inp, s2, e0.defs, e1, SeqNeed(inp.limits, ctx, vs[1..], e0.defs))
    ensures s.heap <= h1 && s2.heap == PutEntry(h1, a, ks[0], g) && s2.heap[a].OMap?
    ensures |s2.heap| == |h1| && |s2.heap[a].entries| <= |s.heap[a].entries| + 1
    ensures forall i | 0 <= i < |h1| && i != a :: s2.heap[i] == h1[i]
    ensures Rep(h1, |s.heap|, |h1|, g, Image(vs[0]))
    ensures forall s3, n1 | Advanced(s2, s3, e1, n1) :: Advanced(s, s3, e, Both(NeedOf(inp.limits, vs[0], defs), n1))
    decreases true, ctx, 0, |vs|, 0
  {
    hide Valid, Coupled, At, Cut, Encode, NeedOf, ReadValue, ReadPair, Image, Rep, PutEntry, EncodeString, Apart, Learned;
    var n0 := NeedOf(inp.limits, vs[0], defs);
    var s1;
    s1, e0, e1 := PairReady(inp, s, ctx, ks, vs, defs, e, n);
    var n1 := SeqNeed(inp.limits, ctx, vs[1..], e0.defs);
    ValueReadsBack(inp, s1, vs[0], defs, e0, n0);
    var r0 := ReadValue(inp, s1);
    TailReady(inp, s1, r0.st, defs, Encoded(e0.bytes + e1.bytes, e1.defs), n, e0, n0, e1, n1);
    PairStored(inp, s, s1, r0.st, ks[0], r0.v, a);
    PutReady(inp, r0.st, a, ks[0], r0.v, e0.defs, e1, n1);
    h1, g := r0.st.heap, r0.v;
    s2 := r0.st.(heap := PutEntry(h1, a, ks[0], g));
    forall s3, n1' | Advanced(s2, s3, e1, n1') ensures Advanced(s, s3, e, Both(n0, n1')) {
      PairAdvanced(s, s1, r0.st, s2, s3, EncodeString(ks[0]).value, e0, n0, e1, n1', e);
    }
  }

  lemma {:induction false} EntriesReadBack(inp: Input, s: DState, ctx: Value, ks: seq<GoString>, vs: seq<Value>, defs: Defs, e: Encoded, n: Need, a: nat, count: nat)
    requires |ks| == |vs| && Below(ctx, vs) && EncodeEntries(ctx, ks, vs, defs) == Some(e)
    requires n == SeqNeed(inp.limits, ctx, vs, defs)
    requires Ready(inp, s, defs, e, n)
    requires Distinct(ks) && forall i | 0 <= i < |ks| :: ScalarFits(inp.limits, ks[i])
    requires a < |s.heap| && s.heap[a].OMap? && |s.heap[a].entries| <= count
    requires count + |ks| <= inp.limits.maxItems
    ensures ReadEntries(inp, s, a, count).Ok?
    ensures var r := ReadEntries(inp, s, a, count);
            Advanced(s, r.st, e, n) && Filled(s.heap, r.st.heap, a, ks, vs)
    decreases true, ctx, 0, |vs|, 1
  {
    hide *;
    ReadyValid(inp, s, defs, e, n);
    if vs == [] {
      NoEntries(inp, s, ctx, defs, e, n, a, count);
      FilledNothing(s.heap, a);
    } else {
      var s2, h1, g, e0, e1 := PairReadBack(inp, s, ctx, ks, vs, defs, e, n, a);
      BelowParts(ctx, vs);
      HeadNeed(inp.limits, ctx, vs, defs);
      DistinctTail(ks);
      var n1 := SeqNeed(inp.limits, ctx, vs[1..], e0.defs);
      ReadyValid(inp, s2, e0.defs, e1, n1);
      EntriesReadBack(inp, s2, ctx, ks[1..], vs[1..], e0.defs, e1, n1, a, count + 1);
      EntriesTurn(inp, s, a, count, s2);
      FilledStep(s.heap, h1, g, ReadEntries(inp, s2, a, count + 1).st.heap, a, ks, vs);
    }
  }

  lemma {:induction false} DistinctTail(ks: seq<GoString>)
    requires Distinct(ks) && ks != []
    ensures Distinct(ks[1..])
  {
  }

  lemma {:induction false} NoEntries(inp: Input, s: DState, ctx: Value, defs: Defs, e: Encoded, n: Need, a: nat, count: nat)
    requires Below(ctx, []) && EncodeEntries(ctx, [], [], defs) == Some(e) && n == SeqNeed(inp.limits, ctx, [], defs)
    requires Ready(inp, s, defs, e, n)
    requires a < |s.heap| && s.heap[a].OMap? && |s.heap[a].entries| <= count <= inp.limits.maxItems
    ensures ReadEntries(inp, s, a, count).Ok? && ReadEntries(inp, s, a, count).st.heap == s.heap
    ensures Advanced(s, ReadEntries(inp, s, a, count).st, e, n)
  {
    hide Valid, Coupled, Cut, Learned, ReadPair;
    EndByte(inp, s.offset);
    LearnedNothing(s.classDefs, {});
  }

  /** One turn of the loop over entries; those that follow leave newer objects alone. */
  lemma {:induction false} EntriesTurn(inp: Input, s: DState, a: nat, count: nat, s2: DState)
    requires Valid(inp, s) && a < |s.heap| && s.heap[a].OMap? && |s.heap[a].entries| <= count < inp.limits.maxItems
    requires s.offset < |inp.data| && !Peeks(inp, s, 'z' as int) && ReadPair(inp, s, a) == Ok((), s2)
    requires Valid(inp, s2) && a < |s2.heap| && s2.heap[a].OMap? && |s2.heap[a].entries| <= count + 1
    ensures ReadEntries(inp, s, a, count) == ReadEntries(inp, s2, a, count + 1)
    ensures var r := ReadEntries(inp, s2, a, count + 1);
            r.Ok? ==> |s2.heap| <= |r.st.heap| && forall i | a < i < |s2.heap| :: r.st.heap[i] == s2.heap[i]
  {
    hide ReadPair, Valid;
  }

  lemma {:induction false} FilledNothing(h: Heap, a: nat)
    requires a < |h| && h[a].OMap?
    ensures Filled(h, h, a, [], [])
  {
  }

  /** ts gives each key the image of its value, and nothing else. */
  ghost predicate Matches(ts: map<GoString, Tree>, ks: seq<GoString>, vs: seq<Value>) {
    && |ks| == |vs|
    && (forall i | 0 <= i < |ks| :: ks[i] in ts && ts[ks[i]] == Image(vs[i]))
    && (forall k | k in ts :: k in ks)
  }

  lemma {:induction false} FilledIsTree(h: Heap, h': Heap, a: nat, ks: seq<GoString>, vs: seq<Value>, ts: map<GoString, Tree>, lo: nat)
    requires Filled(h, h', a, ks, vs) && h[a] == OMap(map[]) && Matches(ts, ks, vs) && lo <= a
    ensures Rep(h', lo, |h'|, GMap(a), TMap(ts))
  {
    var m := h'[a].entries;
    assert m.Keys == ts.Keys;
    forall k | k in ts ensures Rep(h', lo, |h'|, m[k], ts[k]) {
      var i :| 0 <= i < |ks| && ks[i] == k;
      RepFrame(h', h', |h|, |h'|, lo, |h'|, m[k], ts[k]);
    }
  }

  /** From the tag of a map to its first entry. */
  lemma {:induction false} MapHeadRead(inp: Input, s: DState, typeName: GoString, after: seq<byte>)
    requires Valid(inp, s) && s.depth < inp.limits.maxDepth
    requires At(inp, s.offset + 1, EncodeTypeTag(typeName) + after) && after != [] && after[0] < 0x80
    requires after[0] != 't' as int && after[0] != 'T' as int && after[0] != 0x75
    requires TypeNameFits(inp.limits, typeName) && |s.types| + (if typeName == [] then 0 else 1) <= inp.limits.maxRefs
    ensures var s1 := s.(depth := s.depth + 1, offset := s.offset + 1);
            var s2 := s1.(offset := s1.offset + |EncodeTypeTag(typeName)|,
                          types := if typeName == [] then s.types else s.types + [typeName]);
            && Valid(inp, s1) && Valid(inp, s2)
            && ReadType(inp, s1) == Ok(typeName, s2)
            && At(inp, s2.offset, after)
  {
    hide EncodeType, RuneCount, Cut, At, ReadType, Valid;
    var s1 := s.(depth := s.depth + 1, offset := s.offset + 1);
    AtParts(inp, s.offset + 1, EncodeTypeTag(typeName), after);
    AtFirst(inp, s.offset + 1 + |EncodeTypeTag(typeName)|, after);
    MovedValid(inp, s, 1, |EncodeTypeTag(typeName)|, if typeName == [] then s.types else s.types + [typeName]);
    if typeName == [] {
      NoTypeRead(inp, s1);
    } else {
      TypeRead(inp, s1, typeName);
    }
  }

  lemma {:induction false} MovedValid(inp: Input, s: DState, first: nat, second: nat, types: seq<GoString>)
    requires Valid(inp, s) && s.depth < inp.limits.maxDepth && s.offset + first + second <= |inp.data|
    requires |types| <= inp.limits.maxRefs
    ensures var s1 := s.(depth := s.depth + 1, offset := s.offset + first);
            Valid(inp, s1) && Valid(inp, s1.(offset := s1.offset + second, types := types))
  {
    hide ValidHeap;
  }

  /** No type is written. */
  lemma {:induction false} NoTypeRead(inp: Input, s: DState)
    requires Valid(inp, s)
    requires !Peeks(inp, s, 't' as int) && !Peeks(inp, s, 'T' as int) && !Peeks(inp, s, 0x75)
    ensures ReadType(inp, s) == Ok([], s)
  {
    hide Valid, ReadIntValue, ReadRunes, AddType;
  }

  /** Opening the map; what it will be once filled. */
  lemma {:induction false} OpenMapRead(inp: Input, s: DState, typeName: GoString)
    requires Valid(inp, s) && |s.refs| < inp.limits.maxRefs
    ensures OpenMap(inp, s, typeName).Ok?
    ensures var r := OpenMap(inp, s, typeName);
            && r.st == s.(heap := r.st.heap, refs := s.refs + [r.v])
            && s.heap < r.st.heap && r.st.heap[|s.heap|] == OMap(map[])
            && (typeName == [] ==> r.v == GMap(|s.heap|))
            && (typeName != [] ==>
                  && r.v == GMap(|s.heap| + 1) && |r.st.heap| == |s.heap| + 2
                  && r.st.heap[|s.heap| + 1] == OMap(TypedEntries(typeName, Ascii("entries"), GMap(|s.heap|))))
  {
    hide Valid;
  }

  /** The map filled is the tree of the whole value. */
  lemma {:induction false} MapIsTree(h: Heap, h': Heap, typeName: GoString, a: nat, out: GoVal, ts: map<GoString, Tree>, lo: nat)
    requires lo <= a < |h| <= |h'| && Rep(h', lo, |h'|, GMap(a), TMap(ts))
    requires typeName == [] ==> out == GMap(a)
    requires typeName != [] ==> out == GMap(a + 1) && a + 1 < |h| && h'[a + 1] == h[a + 1]
                                && h[a + 1] == OMap(TypedEntries(typeName, Ascii("entries"), GMap(a)))
    ensures Rep(h', lo, |h'|, out, MapImage(typeName, ts))
  {
    if typeName != [] {
      assert |Ascii("type")| != |Ascii("entries")|;
      assert h'[a + 1].entries.Keys == {Ascii("type"), Ascii("entries")};
    }
  }

  /** mid is s with the type read and the map opened, standing at its first entry. */
  ghost predicate Opened(inp: Input, s: DState, typeName: GoString, mid: R<GoVal>) {
    && mid.Ok? && Valid(inp, mid.st)
    && mid.st == s.(depth := s.depth + 1, offset := s.offset + 1 + |EncodeTypeTag(typeName)|,
                    types := if typeName == [] then s.types else s.types + [typeName],
                    refs := s.refs + [mid.v], heap := mid.st.heap)
    && s.heap < mid.st.heap && mid.st.heap[|s.heap|] == OMap(map[])
    && (typeName == [] ==> mid.v == GMap(|s.heap|))
    && (typeName != [] ==>
          && mid.v == GMap(|s.heap| + 1) && |mid.st.heap| == |s.heap| + 2
          && mid.st.heap[|s.heap| + 1] == OMap(TypedEntries(typeName, Ascii("entries"), GMap(|s.heap|))))
  }

  /** From the tag of a map to its first entry, the map opened. */
  lemma {:induction false} MapOpened(inp: Input, s: DState, typeName: GoString, body: seq<byte>) returns (s1: DState, s2: DState, mid: R<GoVal>)
    requires Valid(inp, s) && s.depth < inp.limits.maxDepth && |s.refs| < inp.limits.maxRefs
    requires At(inp, s.offset, ['M' as int] + (EncodeTypeTag(typeName) + body)) && body != [] && body[0] < 0x80
    requires body[0] != 't' as int && body[0] != 'T' as int && body[0] != 0x75
    requires TypeNameFits(inp.limits, typeName) && |s.types| + (if typeName == [] then 0 else 1) <= inp.limits.maxRefs
    ensures s.offset < |inp.data| && inp.data[s.offset] == 'M' as int
    ensures s1 == s.(depth := s.depth + 1, offset := s.offset + 1) && Valid(inp, s1)
    ensures ReadType(inp, s1) == Ok(typeName, s2) && s2.heap == s.heap
    ensures OpenMap(inp, s2, typeName) == mid && Opened(inp, s, typeName, mid)
    ensures At(inp, mid.st.offset, body)
  {
    hide Valid, At, ReadType, EncodeTypeTag, RuneCount, OpenMap;
    AtByte(inp, s.offset, 'M' as int, EncodeTypeTag(typeName) + body);
    MapHeadRead(inp, s, typeName, body);
    s1 := s.(depth := s.depth + 1, offset := s.offset + 1);
    s2 := ReadType(inp, s1).st;
    OpenMapRead(inp, s2, typeName);
    mid := OpenMap(inp, s2, typeName);
  }

  /** A map, given its keys and values in the order they were written. */
  lemma {:induction false} MapContentsReadBack(inp: Input, s: DState, ctx: Value, typeName: GoString, ks: seq<GoString>, vs: seq<Value>, defs: Defs, body: Encoded, need: Need, ts: map<GoString, Tree>)
    requires |ks| == |vs| && Below(ctx, vs) && EncodeEntries(ctx, ks, vs, defs) == Some(body)
    requires need == SeqNeed(inp.limits, ctx, vs, defs)
    requires TypeNameFits(inp.limits, typeName) && |ks| <= inp.limits.maxItems
    requires Distinct(ks) && forall i | 0 <= i < |ks| :: ScalarFits(inp.limits, ks[i])
    requires Ready(inp, s, defs, Encoded(['M' as int] + (EncodeTypeTag(typeName) + body.bytes), body.defs),
                   Need(need.refs + 1, need.types + (if typeName == [] then 0 else 1), need.depth + 1, need.sized, need.used))
    requires Matches(ts, ks, vs)
    ensures ReadsBack(s, ReadValue(inp, s), Encoded(['M' as int] + (EncodeTypeTag(typeName) + body.bytes), body.defs),
                      Need(need.refs + 1, need.types + (if typeName == [] then 0 else 1), need.depth + 1, need.sized, need.used),
                      MapImage(typeName, ts))
    decreases true, ctx, 1, 0, 0
  {
    hide Valid, Coupled, ReadValue, ReadTagged, ReadType, ReadEntries, EncodeTypeTag, RuneCount;
    hide At, Cut, Rep, MapImage, Matches, OpenMap, EncodeEntries, SeqNeed, Filled, Safe, Below, Apart, Learned;
    EntriesStartAscii(ctx, ks, vs, defs);
    var s1, s2, mid := MapOpened(inp, s, typeName, body.bytes);
    EntriesReadBack(inp, mid.st, ctx, ks, vs, defs, body, need, |s.heap|, 0);
    var r := ReadEntries(inp, mid.st, |s.heap|, 0);
    FilledIsTree(mid.st.heap, r.st.heap, |s.heap|, ks, vs, ts, |s.heap|);
    MapIsTree(mid.st.heap, r.st.heap, typeName, |s.heap|, mid.v, ts, |s.heap|);
    Enter(inp, s);
    MapTagged(inp, s1);
  }

  lemma {:induction false} MapReadsBack(inp: Input, s: DState, ctx: Value, typeName: GoString, m: map<GoString, Value>, defs: Defs, e: Encoded, n: Need, ts: map<GoString, Tree>)
    requires (forall k | k in m :: m[k] < ctx) && EncodeMap(ctx, typeName, m, defs) == Some(e)
    requires n == MapNeed(inp.limits, ctx, typeName, m, defs)
    requires Ready(inp, s, defs, e, n)
    requires Matches(ts, KeysOf(m), ValuesAt(m, KeysOf(m)))
    ensures ReadsBack(s, ReadValue(inp, s), e, n, MapImage(typeName, ts))
    decreases true, ctx, 2, 0, 0
  {
    hide Valid, Coupled, At, Cut, ReadValue, EncodeTypeTag, RuneCount, Rep, MapImage, Matches, EncodeEntries, SeqNeed, Advanced, Apart;
    var ks := KeysOf(m);
    var vs := ValuesAt(m, ks);
    OrderedMapKeysEnumerate(m.Keys);
    MapContentsReadBack(inp, s, ctx, typeName, ks, vs, defs, EncodeEntries(ctx, ks, vs, defs).value,
                        SeqNeed(inp.limits, ctx, vs, defs), ts);
  }

  lemma {:induction false} MapTagged(inp: Input, s: DState)
    requires Valid(inp, s)
    ensures ReadTagged(inp, s, 'M' as int) == ReadMap(inp, s)
  {
    hide ReadMap;
  }

  // ------------------------------------------------------------------
  // Objects

  lemma {:induction false} OpenObjectRead(inp: Input, s: DState, def: ClassDef)
    requires Valid(inp, s) && |s.refs| < inp.limits.maxRefs
    ensures OpenObject(inp, s, def).Ok?
    ensures var r := OpenObject(inp, s, def);
            && r.v == GMap(|s.heap| + 1)
            && r.st == s.(heap := r.st.heap, refs := s.refs + [r.v])
            && s.heap <= r.st.heap && |r.st.heap| == |s.heap| + 2
            && r.st.heap[|s.heap|] == OMap(map[])
            && r.st.heap[|s.heap| + 1] == OMap(ObjectEntries(def, |s.heap|))
  {
    hide Valid;
  }

  lemma {:induction false} ObjectIsTree(h: Heap, h': Heap, def: ClassDef, a: nat, ts: map<GoString, Tree>)
    requires a + 1 < |h| <= |h'| && Rep(h', a, |h'|, GMap(a), TMap(ts))
    requires h'[a + 1] == h[a + 1] && h[a + 1] == OMap(ObjectEntries(def, a))
    ensures Rep(h', a, |h'|, GMap(a + 1), ObjectImage(def.typeName, def.fieldNames, ts))
  {
    assert |Ascii("type")| == 4 && |Ascii("fields")| == 6 && |Ascii("fieldNames")| == 10;
    var entries := h'[a + 1].entries;
    assert entries.Keys == {Ascii("type"), Ascii("fields"), Ascii("fieldNames")};
    assert entries[Ascii("type")] == GString(def.typeName);
    assert entries[Ascii("fields")] == GMap(a);
    assert entries[Ascii("fieldNames")] == GStrings(def.fieldNames);
    var t := ObjectImage(def.typeName, def.fieldNames, ts).entries;
    assert t.Keys == entries.Keys;
    assert t[Ascii("type")] == TLeaf(GString(def.typeName));
    assert t[Ascii("fields")] == TMap(ts);
    assert t[Ascii("fieldNames")] == TLeaf(GStrings(def.fieldNames));
    forall k | k in t ensures Rep(h', a, |h'|, entries[k], t[k]) {
      if k == Ascii("fields") { assert entries[k] == GMap(a) && t[k] == TMap(ts); }
    }
  }

  /** From the tag of an object instance to its first field: the reference has been
      read and resolved. */
  lemma {:induction false} InstanceHeadRead(inp: Input, s: DState, ref: nat, after: seq<byte>)
    requires Valid(inp, s) && s.depth + 1 < inp.limits.maxDepth && ref < TWO_31
    requires At(inp, s.offset, ['o' as int] + (EncodeInt(ref) + after))
    ensures s.offset < |inp.data| && inp.data[s.offset] == 'o' as int
    ensures var s1 := s.(depth := s.depth + 1, offset := s.offset + 1);
            var s2 := s1.(offset := s.offset + 6);
            && Valid(inp, s1) && Valid(inp, s2)
            && ReadIntValue(inp, s1) == Ok(ref, s2)
            && At(inp, s2.offset, after)
  {
    hide Valid, EncodeInt, At, ReadIntValue, Wrap32;
    AtByte(inp, s.offset, 'o' as int, EncodeInt(ref) + after);
    AtParts(inp, s.offset + 1, EncodeInt(ref), after);
    Enter(inp, s);
    var s1 := s.(depth := s.depth + 1, offset := s.offset + 1);
    IntValueRead(inp, s1, ref);
    Wrap32Idempotent(ref);
    AtWithin(inp, s.offset + 6, after);
    Moved(inp, s1, s.offset + 6);
  }

  /** An object whose definition the reader has at index ref. */
  lemma {:induction false} InstanceReadsBack(inp: Input, s: DState, ctx: Value, def: ClassDef, ref: nat, vs: seq<Value>, defs: Defs, body: Encoded, need: Need, ts: map<GoString, Tree>)
    requires Below(ctx, vs) && EncodeSeq(ctx, vs, defs) == Some(body) && need == SeqNeed(inp.limits, ctx, vs, defs)
    requires Valid(inp, s) && Coupled(defs, s.classDefs)
    requires At(inp, s.offset, ['o' as int] + (EncodeInt(ref) + body.bytes)) && Cut(inp, s.offset + 6 + |body.bytes|)
    requires Room(inp, s.(depth := s.depth + 1), Need(need.refs + 1, need.types, Max(need.depth, 1), need.sized, need.used), body.defs)
    requires ref < |s.classDefs| && ref < TWO_31 && s.classDefs[ref] == def
    requires |def.fieldNames| == |vs| && Distinct(def.fieldNames) && |vs| <= inp.limits.maxItems
    requires Matches(ts, def.fieldNames, vs)
    ensures ReadsBack(s, ReadValue(inp, s), Encoded(['o' as int] + (EncodeInt(ref) + body.bytes), body.defs),
                      Need(need.refs + 1, need.types, 0, true, need.used), ObjectImage(def.typeName, def.fieldNames, ts))
    decreases true, ctx, 1, 0, 0
  {
    hide Valid, Coupled, Encode, NeedOf, ReadValue, ReadTagged, ReadIntValue, ReadFields, EncodeInt, SeqNeed, EncodeSeq;
    hide At, Cut, Rep, ObjectImage, Matches, OpenObject, Image, Apart, Learned;
    InstanceHeadRead(inp, s, ref, body.bytes);
    var s1 := s.(depth := s.depth + 1, offset := s.offset + 1);
    var s2 := s1.(offset := s.offset + 6);
    OpenObjectRead(inp, s2, def);
    var mid := OpenObject(inp, s2, def);
    FieldsReadBack(inp, mid.st, ctx, def.fieldNames, vs, defs, body, need, |s.heap|);
    var r := ReadFields(inp, mid.st, |s.heap|, def.fieldNames);
    FilledIsTree(mid.st.heap, r.st.heap, |s.heap|, def.fieldNames, vs, ts, |s.heap|);
    ObjectIsTree(mid.st.heap, r.st.heap, def, |s.heap|, ts);
    assert ReadObjectInstance(inp, s1) == Ok(mid.v, r.st);
    Enter(inp, s);
    InstanceTagged(inp, s1);
  }

  lemma {:induction false} InstanceTagged(inp: Input, s: DState)
    requires Valid(inp, s)
    ensures ReadTagged(inp, s, 'o' as int) == ReadObjectInstance(inp, s)
  {
    hide ReadObjectInstance;
  }

  /** A class definition read back and put at the end of the reader's table. */
  lemma {:induction false} DefinitionRead(inp: Input, s: DState, typeName: GoString, names: seq<GoString>, after: seq<byte>)
    requires Valid(inp, s) && s.depth < inp.limits.maxDepth && |s.classDefs| < inp.limits.maxRefs
    requires ObjectNamesFit(inp.limits, typeName, names) && EncodeNames(names).Some?
    requires At(inp, s.offset, EncodeLenString(typeName) + (EncodeInt(|names|) + (EncodeNames(names).value + after)))
    requires after != [] && after[0] < 0x80
    ensures var end := s.offset + |EncodeLenString(typeName)| + 5 + |EncodeNames(names).value|;
            && At(inp, end, after)
            && ReadObjectDefinition(inp, s)
               == Ok((), s.(offset := end, classDefs := s.classDefs + [ClassDef(typeName, names)]))
  {
    hide Valid, At, Cut, EncodeLenString, EncodeInt, EncodeNames, ReadLenString, ReadIntValue, ReadNames, RuneCount, Wrap32;
    var l, i, n := EncodeLenString(typeName), EncodeInt(|names|), EncodeNames(names).value;
    AtParts(inp, s.offset, l, i + (n + after));
    IntStartsAscii(|names|, n + after);
    LenStringRead(inp, s, typeName);
    AtWithin(inp, s.offset, l);
    Moved(inp, s, s.offset + |l|);
    var s1 := s.(offset := s.offset + |l|);
    AtParts(inp, s1.offset, i, n + after);
    AtWithin(inp, s1.offset, i);
    IntValueRead(inp, s1, |names|);
    Wrap32Idempotent(|names|);
    Moved(inp, s, s1.offset + 5);
    var s2 := s.(offset := s1.offset + 5);
    AtParts(inp, s2.offset, n, after);
    NamesRead(inp, s2, names, [], after);
    assert [] + names == names;
  }

  lemma {:induction false} IntStartsAscii(n: int, after: seq<byte>)
    ensures (EncodeInt(n) + after)[0] == 'I' as int
  {
  }

  /** Both tables gain the same definition at the same index. */
  lemma {:induction false} CoupledGrows(defs: Defs, cds: seq<ClassDef>, typeName: GoString, names: seq<GoString>)
    requires Coupled(defs, cds) && ObjectDefKey(typeName, names) !in defs
    ensures Coupled(defs[ObjectDefKey(typeName, names) := |defs|], cds + [ClassDef(typeName, names)])
  {
    hide ObjectDefKey;
    var key := ObjectDefKey(typeName, names);
    var cds' := cds + [ClassDef(typeName, names)];
    var defs' := defs[key := |defs|];
    forall k | k in defs' ensures defs'[k] < |cds'| && DefKey(cds'[defs'[k]]) == k {
      if k != key { assert cds'[defs[k]] == cds[defs[k]]; }
    }
  }

  /** The reader has the definition already. */
  lemma {:induction false} KnownObjectReadsBack(inp: Input, s: DState, ctx: Value, typeName: GoString, names: seq<GoString>, vs: seq<Value>, defs: Defs, e: Encoded, n: Need, ts: map<GoString, Tree>)
    requires Below(ctx, vs) && EncodeObject(ctx, typeName, names, vs, defs) == Some(e)
    requires n == ObjectNeed(inp.limits, ctx, typeName, names, vs, defs)
    requires Ready(inp, s, defs, e, n)
    requires Distinct(names) && Matches(ts, names, vs) && ObjectDefKey(typeName, names) in defs
    ensures ReadsBack(s, ReadValue(inp, s), e, n, ObjectImage(typeName, names, ts))
    decreases true, ctx, 2, 0, 0
  {
    hide Valid, At, Cut, EncodeSeq, SeqNeed, ReadValue, EncodeInt, Rep, Matches, ObjectImage, ObjectDefKey, Safe, Apart, Learned, ToldApart, Known;
    var ref := defs[ObjectDefKey(typeName, names)];
    var body := EncodeSeq(ctx, vs, defs).value;
    assert e.bytes == ['o' as int] + (EncodeInt(ref) + body.bytes);
    var used := SeqNeed(inp.limits, ctx, vs, defs).used;
    ApartFirst(s.classDefs, ClassDef(typeName, names), used);
    CoupledLookup(defs, s.classDefs, ClassDef(typeName, names));
    InstanceReadsBack(inp, s, ctx, ClassDef(typeName, names), ref, vs, defs, body, SeqNeed(inp.limits, ctx, vs, defs), ts);
    LearnedMore(s.classDefs, ReadValue(inp, s).st.classDefs, ClassDef(typeName, names), used);
  }

  /** The first object of its kind brings its definition along. */
  lemma {:induction false} NewObjectReadsBack(inp: Input, s: DState, ctx: Value, typeName: GoString, names: seq<GoString>, vs: seq<Value>, defs: Defs, e: Encoded, n: Need, ts: map<GoString, Tree>)
    requires Below(ctx, vs) && EncodeObject(ctx, typeName, names, vs, defs) == Some(e)
    requires n == ObjectNeed(inp.limits, ctx, typeName, names, vs, defs)
    requires Ready(inp, s, defs, e, n)
    requires Distinct(names) && Matches(ts, names, vs) && ObjectDefKey(typeName, names) !in defs
    ensures ReadsBack(s, ReadValue(inp, s), e, n, ObjectImage(typeName, names, ts))
    decreases true, ctx, 2, 0, 0
  {
    hide Valid, At, Cut, EncodeSeq, SeqNeed, ReadValue, ReadTagged, EncodeInt, EncodeLenString, EncodeNames, Rep, Matches, ObjectImage;
    hide ObjectDefKey, Safe, Coupled, ReadObjectDefinition, Apart, Learned, ToldApart, Known;
    var defs' := defs[ObjectDefKey(typeName, names) := |defs|];
    var body := EncodeSeq(ctx, vs, defs').value;
    var def := ClassDef(typeName, names);
    var l, i, nm := EncodeLenString(typeName), EncodeInt(|names|), EncodeNames(names).value;
    var inst := ['o' as int] + (EncodeInt(|defs|) + body.bytes);
    NewObjectBytes(l, i, nm, EncodeInt(|defs|), body.bytes);
    assert e.bytes == ['O' as int] + (l + (i + (nm + inst)));
    AtByte(inp, s.offset, 'O' as int, l + (i + (nm + inst)));
    CoupledSize(defs, s.classDefs);
    ApartFirst(s.classDefs, def, SeqNeed(inp.limits, ctx, vs, defs').used);
    Enter(inp, s);
    var s1 := s.(depth := s.depth + 1, offset := s.offset + 1);
    DefinitionRead(inp, s1, typeName, names, inst);
    var s2 := s1.(offset := s1.offset + |l| + 5 + |nm|, classDefs := s.classDefs + [def]);
    CoupledGrows(defs, s.classDefs, typeName, names);
    DefinitionTagged(inp, s1, s2);
    InstanceReadsBack(inp, s2, ctx, def, |defs|, vs, defs', body, SeqNeed(inp.limits, ctx, vs, defs'), ts);
    LearnedFirst(s.classDefs, ReadValue(inp, s2).st.classDefs, def, SeqNeed(inp.limits, ctx, vs, defs').used);
  }

  lemma {:induction false} CoupledSize(defs: Defs, cds: seq<ClassDef>)
    requires Coupled(defs, cds)
    ensures |defs| == |cds|
  {
  }

  lemma {:induction false} NewObjectBytes(l: seq<byte>, i: seq<byte>, nm: seq<byte>, r: seq<byte>, body: seq<byte>)
    ensures ['O' as int] + (l + (i + (nm + (['o' as int] + r)))) + body
         == ['O' as int] + (l + (i + (nm + (['o' as int] + (r + body)))))
  {
    var o := ['o' as int];
    assert (o + r) + body == o + (r + body);
    assert (nm + (o + r)) + body == nm + ((o + r) + body);
    assert (i + (nm + (o + r))) + body == i + ((nm + (o + r)) + body);
    assert (l + (i + (nm + (o + r)))) + body == l + ((i + (nm + (o + r))) + body);
  }

  lemma {:induction false} DefinitionTagged(inp: Input, s: DState, s': DState)
    requires Valid(inp, s) && ReadObjectDefinition(inp, s) == Ok((), s')
    ensures Valid(inp, s') && ReadTagged(inp, s, 'O' as int) == ReadValue(inp, s')
  {
    hide ReadObjectDefinition, ReadValue;
  }

  lemma {:induction false} ObjectReadsBack(inp: Input, s: DState, ctx: Value, typeName: GoString, names: seq<GoString>, vs: seq<Value>, defs: Defs, e: Encoded, n: Need, ts: map<GoString, Tree>)
    requires Below(ctx, vs) && EncodeObject(ctx, typeName, names, vs, defs) == Some(e)
    requires n == ObjectNeed(inp.limits, ctx, typeName, names, vs, defs)
    requires Ready(inp, s, defs, e, n)
    requires Distinct(names) && Matches(ts, names, vs)
    ensures ReadsBack(s, ReadValue(inp, s), e, n, ObjectImage(typeName, names, ts))
    decreases true, ctx, 3, 0, 0
  {
    hide EncodeObject, ObjectNeed, Ready, ReadsBack, ReadValue, Matches, Rep;
    if ObjectDefKey(typeName, names) in defs {
      KnownObjectReadsBack(inp, s, ctx, typeName, names, vs, defs, e, n, ts);
    } else {
      NewObjectReadsBack(inp, s, ctx, typeName, names, vs, defs, e, n, ts);
    }
  }

  lemma {:induction false} MapValueReadsBack(inp: Input, s: DState, v: Value, typeName: GoString, defs: Defs, e: Encoded, n: Need)
    requires v.LinkedHashMap? || v.StringMap?
    requires EncodeMap(v, typeName, v.entries, defs) == Some(e) && n == MapNeed(inp.limits, v, typeName, v.entries, defs)
    requires Ready(inp, s, defs, e, n)
    ensures ReadsBack(s, ReadValue(inp, s), e, n, MapImage(typeName, EntryImages(v)))
    decreases true, v, 3, 0, 0
  {
    hide Ready, ReadsBack, ReadValue, EncodeMap, MapNeed, Matches, Rep, Image, MapImage, Encode, NeedOf;
    MapKeysMatch(v.entries, EntryImages(v));
    MapReadsBack(inp, s, v, typeName, v.entries, defs, e, n, EntryImages(v));
  }

  lemma {:induction false} ListValueReadsBack(inp: Input, s: DState, v: Value, defs: Defs, e: Encoded, n: Need)
    requires v.Strings? || v.ArrayList? || v.Slice?
    requires Encode(v, defs) == Some(e) && n == NeedOf(inp.limits, v, defs)
    requires Ready(inp, s, defs, e, n)
    ensures ReadsBack(s, ReadValue(inp, s), e, n, Image(v))
    decreases true, v, 4, 0, 0
  {
    hide Ready, ReadsBack, ReadValue, EncodeList, ListNeed, Rep, ListImage;
    match v
    case Strings(strs) =>
      ListReadsBack(inp, s, v, Ascii("[string]"), StringsToAny(strs), defs, e, n);
      assert Images(StringsToAny(strs)) == StringImages(strs);
    case ArrayList(items) => ListReadsBack(inp, s, v, Ascii("java.util.ArrayList"), items, defs, e, n);
    case Slice(items) => ListReadsBack(inp, s, v, Ascii("java.util.ArrayList"), items, defs, e, n);
  }

  lemma {:induction false} ObjectValueReadsBack(inp: Input, s: DState, v: Value, defs: Defs, e: Encoded, n: Need)
    requires v.TypedObject? && Encode(v, defs) == Some(e) && n == NeedOf(inp.limits, v, defs)
    requires Ready(inp, s, defs, e, n)
    ensures ReadsBack(s, ReadValue(inp, s), e, n, Image(v))
    decreases true, v, 4, 0, 0
  {
    hide Ready, ReadsBack, ReadValue, EncodeObject, ObjectNeed, Matches, Rep, EncodeString;
    var names := SortedKeys(v.fields.Keys);
    SortedKeysSorts(v.fields.Keys);
    KeysMatch(v.fields, names, EntryImages(v));
    ObjectReadsBack(inp, s, v, v.typeName, names, ValuesAt(v.fields, names), defs, e, n, EntryImages(v));
  }

  /** THE ROUND TRIP. Any value the writer accepts, read by a reader with room for it
      whose definitions match the writer's, comes back as the value's image; the reader
      stops at the last byte written and its definitions match the writer's again. */
  lemma {:induction false} ValueReadsBack(inp: Input, s: DState, v: Value, defs: Defs, e: Encoded, n: Need)
    requires Encode(v, defs) == Some(e) && n == NeedOf(inp.limits, v, defs)
    requires Ready(inp, s, defs, e, n)
    ensures ReadsBack(s, ReadValue(inp, s), e, n, Image(v))
    decreases !v.Str?, v, 5, 0, 0
  {
    hide Ready, ReadsBack, ReadValue, EncodeList, EncodeMap, EncodeObject, ListNeed, MapNeed, ObjectNeed, EncodeString;
    hide Matches, Rep;
    match v
    case Strings(_) => ListValueReadsBack(inp, s, v, defs, e, n);
    case TypedObject(_, _) => ObjectValueReadsBack(inp, s, v, defs, e, n);
    case LinkedHashMap(_) => MapValueReadsBack(inp, s, v, Ascii("java.util.LinkedHashMap"), defs, e, n);
    case StringMap(_) => MapValueReadsBack(inp, s, v, [], defs, e, n);
    case ArrayList(_) => ListValueReadsBack(inp, s, v, defs, e, n);
    case Slice(_) => ListValueReadsBack(inp, s, v, defs, e, n);
    case Unsupported =>
    case _ => ScalarReadsBack(inp, s, v, defs);
  }

  lemma {:induction false} MapKeysMatch(m: map<GoString, Value>, ts: map<GoString, Tree>)
    requires ts.Keys == m.Keys && forall k | k in m :: ts[k] == Image(m[k])
    ensures Matches(ts, KeysOf(m), ValuesAt(m, KeysOf(m)))
  {
    hide Image, Matches;
    OrderedMapKeysEnumerate(m.Keys);
    KeysMatch(m, KeysOf(m), ts);
  }

  lemma {:induction false} KeysMatch(m: map<GoString, Value>, ks: seq<GoString>, ts: map<GoString, Tree>)
    requires Enumerates(ks, m.Keys) && ts.Keys == m.Keys
    requires forall k | k in m :: ts[k] == Image(m[k])
    ensures Matches(ts, ks, ValuesAt(m, ks))
  {
    hide Image;
    forall k | k in ts ensures k in ks {
      EnumerationCovers(ks, m.Keys, k);
    }
  }
}

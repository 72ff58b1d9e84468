/** What stands in the data in one of its forms is read: texts and byte strings of any number of
    chunks, types by number, lists of either length, and maps. */
module Completeness {
  import opened Bytes
  import opened Options
  import opened GoValues
  import opened HessianDecoding
  import opened HessianRoundTrip
  import opened DecoderAnswers
  import opened ContainerAnswers

  // ------------------------------------------------------------------
  // Chunks

  /** The first chunk, and where the others begin. */
  lemma {:induction false} FirstChunk(inp: Input, o: nat, cs: seq<Chunk>)
    requires cs != [] && At(inp, o, Layout(cs))
    ensures var head := if cs[0].tag <= 0x2f then [] else Be16(cs[0].length);
            var at := o + |head| + |cs[0].content|;
            && At(inp, o, head) && At(inp, o + |head|, cs[0].content)
            && (|cs| > 1 ==> at < |inp.data| && inp.data[at] == cs[1].tag && At(inp, at + 1, Layout(cs[1..]))
                             && o + |Layout(cs)| == at + 1 + |Layout(cs[1..])|)
            && (|cs| == 1 ==> o + |Layout(cs)| == at)
            && Contents(cs) == cs[0].content + Contents(cs[1..])
  {
    hide *;
    var head := if cs[0].tag <= 0x2f then [] else Be16(cs[0].length);
    var tail := if |cs| == 1 then [] else [cs[1].tag] + Layout(cs[1..]);
    LayoutParts(cs);
    AtParts(inp, o, head + cs[0].content, tail);
    AtParts(inp, o, head, cs[0].content);
    if |cs| > 1 {
      AtByte(inp, o + |head| + |cs[0].content|, cs[1].tag, Layout(cs[1..]));
    }
  }

  lemma {:induction false} LayoutParts(cs: seq<Chunk>)
    requires cs != []
    ensures var head := if cs[0].tag <= 0x2f then [] else Be16(cs[0].length);
            Layout(cs) == head + cs[0].content + if |cs| == 1 then [] else [cs[1].tag] + Layout(cs[1..])
    ensures Contents(cs) == cs[0].content + Contents(cs[1..])
  {
    hide Be16;
  }

  lemma {:induction false} EndedBehind(cs: seq<Chunk>, more: char)
    requires (more == 's' || more == 'b') && Ended(cs, more)
    ensures cs != [] && (cs[0].tag == more as int <==> |cs| > 1)
    ensures |cs| > 1 ==> Ended(cs[1..], more)
  {
    if |cs| > 1 {
      forall i | 0 <= i < |cs[1..]| ensures cs[1..][i].tag == more as int <==> i < |cs[1..]| - 1 {
        assert cs[1..][i] == cs[i + 1];
      }
    }
  }

  /** One text chunk. */
  lemma {:induction false} TextTurn(inp: Input, s: DState, out: GoString, c: Chunk)
    requires Valid(inp, s) && TextChunk(c) && At(inp, s.offset, if c.tag <= 0x2f then [] else Be16(c.length))
    requires var at := s.offset + if c.tag <= 0x2f then 0 else 2;
             At(inp, at, c.content) && Cut(inp, at + |c.content|)
    requires |out| + |c.content| <= inp.limits.maxScalar
    ensures var at := s.offset + if c.tag <= 0x2f then 0 else 2;
            var s2 := s.(offset := at + |c.content|);
            && Valid(inp, s2)
            && if c.tag != 's' as int then ReadChunks(inp, s, c.tag, out) == R.Ok(out + c.content, s2)
               else s2.offset < |inp.data| ==>
                 var s3 := s2.(offset := s2.offset + 1);
                 Valid(inp, s3) && ReadChunks(inp, s, c.tag, out) == ReadChunks(inp, s3, inp.data[s2.offset], out + c.content)
  {
    hide ReadRunes, ReadUint16, ReadByte, ValidHeap, At, Be16, RuneCount, Cut;
    var s1 := s.(offset := s.offset + if c.tag <= 0x2f then 0 else 2);
    if c.tag > 0x2f { Uint16Exactly(inp, s, c.length); }
    assert Valid(inp, s1) by { Inside(inp, s, s1.offset, c.content); }
    RunesRead(inp, s1, c.content);
    Inside(inp, s, s1.offset, c.content);
    OneRead(inp, s1.(offset := s1.offset + |c.content|));
  }

  lemma {:induction false} Inside(inp: Input, s: DState, o: nat, b: seq<byte>)
    requires Valid(inp, s) && At(inp, o, b)
    ensures Valid(inp, s.(offset := o)) && Valid(inp, s.(offset := o + |b|))
    ensures o + |b| < |inp.data| ==> Valid(inp, s.(offset := o + |b| + 1))
  {
    hide ValidHeap;
  }

  /** Chunks that lie one behind the other, and are followed by no rest of a rune, are read as
      the text they hold. */
  lemma {:induction false} ChunksRead(inp: Input, s: DState, out: GoString, cs: seq<Chunk>)
    requires Valid(inp, s) && Ended(cs, 's') && (forall i | 0 <= i < |cs| :: TextChunk(cs[i]))
    requires At(inp, s.offset, Layout(cs)) && Cut(inp, s.offset + |Layout(cs)|)
    requires |out| + |Contents(cs)| <= inp.limits.maxScalar
    ensures ReadChunks(inp, s, cs[0].tag, out) == R.Ok(out + Contents(cs), s.(offset := s.offset + |Layout(cs)|))
    decreases |cs|
  {
    hide ReadChunks, Valid, At, TextChunk, Be16, Layout, Safe, Contents, Ended, Cut;
    EndedBehind(cs, 's');
    FirstChunk(inp, s.offset, cs);
    var c := cs[0];
    assert TextChunk(c);
    var at := s.offset + (if c.tag <= 0x2f then 0 else 2) + |c.content|;
    if |cs| > 1 {
      assert TextChunk(cs[1]);
      TagCuts(inp, at, cs[1]);
    }
    TextTurn(inp, s, out, c);
    if |cs| == 1 {
      NoContents();
      assert cs[1..] == [] && c.content + [] == c.content;
    } else {
      assert forall i | 0 <= i < |cs[1..]| :: cs[1..][i] == cs[i + 1];
      ChunksRead(inp, s.(offset := at + 1), out + c.content, cs[1..]);
      assert out + c.content + Contents(cs[1..]) == out + (c.content + Contents(cs[1..]));
    }
  }

  lemma {:induction false} NoContents()
    ensures Contents([]) == []
  {
  }

  lemma {:induction false} TagCuts(inp: Input, o: nat, c: Chunk)
    requires TextChunk(c) && o < |inp.data| && inp.data[o] == c.tag
    ensures Cut(inp, o)
  {
    hide RuneCount;
  }

  lemma {:induction false} LengthStands(inp: Input, s: DState, c: Chunk)
    requires Valid(inp, s) && BlobChunk(c) && At(inp, s.offset, if c.tag <= 0x2f then [] else Be16(c.length))
    ensures ReadBlobLength(inp, s, c.tag) == R.Ok(c.length, s.(offset := s.offset + if c.tag <= 0x2f then 0 else 2))
  {
    hide ReadUint16, Valid, Be16, At;
    if c.tag > 0x2f { Uint16Exactly(inp, s, c.length); }
  }

  lemma {:induction false} BytesStand(inp: Input, s: DState, b: seq<byte>, have: nat)
    requires Valid(inp, s) && At(inp, s.offset, b) && have + |b| <= inp.limits.maxScalar
    ensures TakeBytes(inp, s, |b|, have) == R.Ok(b, s.(offset := s.offset + |b|))
  {
    hide Valid;
  }

  /** One byte chunk. */
  lemma {:induction false} BytesTurn(inp: Input, s: DState, out: seq<byte>, c: Chunk)
    requires Valid(inp, s) && BlobChunk(c) && At(inp, s.offset, if c.tag <= 0x2f then [] else Be16(c.length))
    requires At(inp, s.offset + (if c.tag <= 0x2f then 0 else 2), c.content) && |out| + |c.content| <= inp.limits.maxScalar
    ensures var at := s.offset + if c.tag <= 0x2f then 0 else 2;
            var s2 := s.(offset := at + |c.content|);
            && Valid(inp, s2)
            && if c.tag != 'b' as int then ReadBlob(inp, s, c.tag, out) == R.Ok(out + c.content, s2)
               else s2.offset < |inp.data| ==>
                 var s3 := s2.(offset := s2.offset + 1);
                 Valid(inp, s3) && ReadBlob(inp, s, c.tag, out) == ReadBlob(inp, s3, inp.data[s2.offset], out + c.content)
  {
    hide ReadBlobLength, TakeBytes, ReadByte, Valid, Be16, At, Safe;
    var s1 := s.(offset := s.offset + if c.tag <= 0x2f then 0 else 2);
    Inside(inp, s, s1.offset, c.content);
    LengthStands(inp, s, c);
    BytesStand(inp, s1, c.content, |out|);
    OneRead(inp, s1.(offset := s1.offset + |c.content|));
  }

  /** The same for byte strings. */
  lemma {:induction false} BytesRead(inp: Input, s: DState, out: seq<byte>, cs: seq<Chunk>)
    requires Valid(inp, s) && Ended(cs, 'b') && (forall i | 0 <= i < |cs| :: BlobChunk(cs[i]))
    requires At(inp, s.offset, Layout(cs)) && |out| + |Contents(cs)| <= inp.limits.maxScalar
    ensures ReadBlob(inp, s, cs[0].tag, out) == R.Ok(out + Contents(cs), s.(offset := s.offset + |Layout(cs)|))
    decreases |cs|
  {
    hide ReadBlob, Valid, At, BlobChunk, Be16, Layout, Safe, Contents, Ended;
    EndedBehind(cs, 'b');
    FirstChunk(inp, s.offset, cs);
    var c := cs[0];
    assert BlobChunk(c);
    var at := s.offset + (if c.tag <= 0x2f then 0 else 2) + |c.content|;
    BytesTurn(inp, s, out, c);
    if |cs| == 1 {
      NoContents();
      assert cs[1..] == [] && c.content + [] == c.content;
    } else {
      assert forall i | 0 <= i < |cs[1..]| :: cs[1..][i] == cs[i + 1];
      BytesRead(inp, s.(offset := at + 1), out + c.content, cs[1..]);
      assert out + c.content + Contents(cs[1..]) == out + (c.content + Contents(cs[1..]));
    }
  }

  // ------------------------------------------------------------------
  // Types and lists

  /** A type that is named by its number. */
  lemma {:induction false} TypeByNumber(inp: Input, s: DState)
    requires Valid(inp, s) && (Peeks(inp, s, 'T' as int) || Peeks(inp, s, 0x75))
    requires Valid(inp, s.(offset := s.offset + 1)) && ReadIntValue(inp, s.(offset := s.offset + 1)).Ok?
    requires var n := ReadIntValue(inp, s.(offset := s.offset + 1)); 0 <= n.v < |n.st.types|
    ensures var n := ReadIntValue(inp, s.(offset := s.offset + 1)); ReadType(inp, s) == R.Ok(n.st.types[n.v], n.st)
  {
    hide ReadIntValue, ReadRunes, ReadUint16, ValidHeap;
  }

  lemma {:induction false} NextItem(inp: Input, s: DState, n: nat, acc: seq<GoVal>)
    requires Valid(inp, s) && 0 < n && |acc| + n <= inp.limits.maxItems && ValidVals(s.heap, acc) && ReadValue(inp, s).Ok?
    ensures var r := ReadValue(inp, s);
            && Valid(inp, r.st) && ValidVals(r.st.heap, acc + [r.v])
            && ReadItems(inp, s, n, acc) == ReadItems(inp, r.st, n - 1, acc + [r.v])
  {
    hide ReadValue, ValidHeap;
    ValidValsGrow(s.heap, ReadValue(inp, s).st.heap, acc);
  }

  lemma {:induction false} NextItemToEnd(inp: Input, s: DState, acc: seq<GoVal>)
    requires Valid(inp, s) && |acc| < inp.limits.maxItems && ValidVals(s.heap, acc) && ReadValue(inp, s).Ok?
    requires s.offset < |inp.data| && !Peeks(inp, s, 'z' as int)
    ensures var r := ReadValue(inp, s);
            && Valid(inp, r.st) && ValidVals(r.st.heap, acc + [r.v])
            && ReadItemsToEnd(inp, s, acc) == ReadItemsToEnd(inp, r.st, acc + [r.v])
  {
    hide ReadValue, ValidHeap;
    ValidValsGrow(s.heap, ReadValue(inp, s).st.heap, acc);
  }

  lemma {:induction false} FirstOf(inp: Input, s: DState, vs: seq<GoVal>, end: DState)
    requires Valid(inp, s) && ItemsRead(inp, s, vs, end)
    ensures vs == [] ==> end == s
    ensures vs != [] ==> ReadValue(inp, s).Ok? && ReadValue(inp, s).v == vs[0]
                         && Valid(inp, ReadValue(inp, s).st) && ItemsRead(inp, ReadValue(inp, s).st, vs[1..], end)
                         && s.offset < |inp.data| && !Peeks(inp, s, 'z' as int)
  {
    hide Valid, ReadTagged;
    if vs != [] { EndMarkRefused(inp, s); }
  }

  /** No value begins with the end mark. */
  lemma {:induction false} EndMarkRefused(inp: Input, s: DState)
    requires Valid(inp, s) && ReadValue(inp, s).Ok?
    ensures s.offset < |inp.data| && !Peeks(inp, s, 'z' as int)
  {
    hide ReadList, ReadFixedTypedList, ReadMap, ReadObjectInstance, ReadObjectDefinition, ReadStringWithTag, ReadBlob, ReadNumber;
    hide ReadInt32, ReadUint16, ValidHeap, Safe, ReadRef;
    if Peeks(inp, s, 'z' as int) { NoNumber(inp, s.(depth := s.depth + 1, offset := s.offset + 1)); }
  }

  lemma {:induction false} NoNumber(inp: Input, s: DState)
    requires Valid(inp, s)
    ensures ReadNumber(inp, s, 'z' as int).Fail?
  {
    hide ValidHeap;
  }

  lemma {:induction false} ItemsAllRead(inp: Input, s: DState, acc: seq<GoVal>, vs: seq<GoVal>, end: DState)
    requires Valid(inp, s) && |acc| + |vs| <= inp.limits.maxItems && ValidVals(s.heap, acc) && ItemsRead(inp, s, vs, end)
    ensures ReadItems(inp, s, |vs|, acc) == R.Ok(acc + vs, end)
    decreases |vs|
  {
    hide *;
    FirstOf(inp, s, vs, end);
    if vs == [] {
      NoItemsRead(inp, s, acc);
      assert acc + vs == acc;
    } else {
      NextItem(inp, s, |vs|, acc);
      var r := ReadValue(inp, s);
      ItemsAllRead(inp, r.st, acc + [r.v], vs[1..], end);
      assert acc + [r.v] + vs[1..] == acc + vs;
    }
  }

  lemma {:induction false} ItemsToEndAllRead(inp: Input, s: DState, acc: seq<GoVal>, vs: seq<GoVal>, end: DState)
    requires Valid(inp, s) && |acc| + |vs| <= inp.limits.maxItems && ValidVals(s.heap, acc) && ItemsRead(inp, s, vs, end)
    requires Peeks(inp, end, 'z' as int)
    ensures ReadItemsToEnd(inp, s, acc) == R.Ok(acc + vs, end.(offset := end.offset + 1))
    decreases |vs|
  {
    hide *;
    FirstOf(inp, s, vs, end);
    if vs == [] {
      EndRead(inp, s, acc);
      assert acc + vs == acc;
    } else {
      NextItemToEnd(inp, s, acc);
      var r := ReadValue(inp, s);
      ItemsToEndAllRead(inp, r.st, acc + [r.v], vs[1..], end);
      assert acc + [r.v] + vs[1..] == acc + vs;
    }
  }

  lemma {:induction false} Finishes(inp: Input, s: DState, typeName: GoString, items: seq<GoVal>, typed: bool)
    requires Valid(inp, s) && |items| <= inp.limits.maxItems && ValidVals(s.heap, items) && |s.refs| < inp.limits.maxRefs
    ensures FinishList(inp, s, typeName, items, typed).Ok?
    ensures FinishList(inp, s, typeName, items, typed).st.offset == s.offset
  {
    hide Valid, Grew;
  }

  /** As many items as were announced, with or without an end mark, or any number up to an end
      mark, are read as a list of them, if there is room for it. */
  lemma {:induction false} ListRead(inp: Input, s: DState, vs: seq<GoVal>, end: DState)
    requires Valid(inp, s) && ReadType(inp, s).Ok? && ReadLength(inp, ReadType(inp, s).st).Ok?
    requires var n := ReadLength(inp, ReadType(inp, s).st);
             && ItemsRead(inp, n.st, vs, end) && |vs| <= inp.limits.maxItems && |end.refs| < inp.limits.maxRefs
             && if n.v < 0 then Peeks(inp, end, 'z' as int) else |vs| == n.v
    ensures var t, r := ReadType(inp, s).v, ReadList(inp, s);
            && r.Ok? && ListHeld(r.st.heap, r.v, t, t != [], vs)
            && r.st.offset == end.offset + if Peeks(inp, end, 'z' as int) then 1 else 0
  {
    hide ReadType, ReadLength, ReadItems, ReadItemsToEnd, FinishList, Valid, Grew, ItemsRead, ListHeld, ValidVals;
    var t := ReadType(inp, s);
    var n := ReadLength(inp, t.st);
    NoValues(n.st.heap);
    assert [] + vs == vs;
    if n.v < 0 {
      ItemsToEndAllRead(inp, n.st, [], vs, end);
    } else {
      ItemsAllRead(inp, n.st, [], vs, end);
    }
    var items := ReadListBody(inp, n.st, n.v);
    Finishes(inp, items.st, t.v, vs, t.v != []);
    FinishedHeld(inp, items.st, t.v, vs, t.v != []);
  }

  lemma {:induction false} NoValues(h: Heap)
    ensures ValidVals(h, [])
  {
  }

  /** The same where type and length come as numbers. */
  lemma {:induction false} FixedListRead(inp: Input, s: DState, vs: seq<GoVal>, end: DState)
    requires Valid(inp, s) && ReadIntValue(inp, s).Ok? && ReadIntValue(inp, ReadIntValue(inp, s).st).Ok?
    requires var t := ReadIntValue(inp, s);
             var n := ReadIntValue(inp, t.st);
             && 0 <= t.v < |t.st.types| && |vs| == n.v <= inp.limits.maxItems && ItemsRead(inp, n.st, vs, end)
             && |end.refs| < inp.limits.maxRefs
    ensures var t, r := ReadIntValue(inp, s), ReadFixedTypedList(inp, s);
            r.Ok? && ListHeld(r.st.heap, r.v, t.st.types[t.v], true, vs) && r.st.offset == end.offset
  {
    hide ReadIntValue, ReadItems, FinishList, Valid, ItemsRead, ListHeld, ValidVals;
    var t := ReadIntValue(inp, s);
    var n := ReadIntValue(inp, t.st);
    NoValues(n.st.heap);
    assert [] + vs == vs;
    ItemsAllRead(inp, n.st, [], vs, end);
    assert t.st.types <= end.types;
    Finishes(inp, end, end.types[t.v], vs, true);
    FinishedHeld(inp, end, end.types[t.v], vs, true);
  }

  // ------------------------------------------------------------------
  // Maps

  lemma {:induction false} NextEntry(inp: Input, s: DState, a: nat, es: seq<(GoString, GoVal)>, end: DState)
    requires Valid(inp, s) && a < |s.heap| && s.heap[a].OMap? && |s.heap[a].entries| <= inp.limits.maxItems
    requires es != [] && EntriesRead(inp, s, a, es, end)
    ensures ReadPair(inp, s, a).Ok? && s.offset < |inp.data| && !Peeks(inp, s, 'z' as int)
    ensures var next := ReadPair(inp, s, a).st;
            && Valid(inp, next) && a < |next.heap| && next.heap[a] == OMap(s.heap[a].entries[es[0].0 := es[0].1])
            && EntriesRead(inp, next, a, es[1..], end)
  {
    EndMarkRefused(inp, s);
    PairRead(inp, s, a, es[0]);
    hide ReadValue, Valid, ReadPair, KeyText;
  }

  lemma {:induction false} PairRead(inp: Input, s: DState, a: nat, e: (GoString, GoVal))
    requires Valid(inp, s) && a < |s.heap| && s.heap[a].OMap? && |s.heap[a].entries| <= inp.limits.maxItems
    requires ReadValue(inp, s).Ok? && ReadValue(inp, ReadValue(inp, s).st).Ok?
    requires var k := ReadValue(inp, s);
             var v := ReadValue(inp, k.st);
             ValidVal(v.st.heap, k.v) && KeyText(inp, v.st.heap, k.v) == Some(e.0) && e.1 == v.v
    ensures var v := ReadValue(inp, ReadValue(inp, s).st);
            && a < |v.st.heap| && v.st.heap[a] == s.heap[a]
            && ReadPair(inp, s, a) == R.Ok((), v.st.(heap := v.st.heap[a := OMap(v.st.heap[a].entries[e.0 := v.v])]))
  {
    hide ReadValue, ValidHeap, KeyText;
  }

  lemma {:induction false} EntryTurn(inp: Input, s: DState, a: nat, count: nat)
    requires Valid(inp, s) && a < |s.heap| && s.heap[a].OMap? && |s.heap[a].entries| <= count < inp.limits.maxItems
    requires ReadPair(inp, s, a).Ok? && s.offset < |inp.data| && !Peeks(inp, s, 'z' as int)
    ensures var next := ReadPair(inp, s, a).st;
            && Valid(inp, next) && a < |next.heap| && next.heap[a].OMap? && |next.heap[a].entries| <= count + 1
            && ReadEntries(inp, s, a, count) == ReadEntries(inp, next, a, count + 1)
  {
    hide ReadPair, ValidHeap, Grew;
  }

  lemma {:induction false} EntriesAllRead(inp: Input, s: DState, a: nat, count: nat, es: seq<(GoString, GoVal)>, end: DState)
    requires Valid(inp, s) && a < |s.heap| && s.heap[a].OMap? && |s.heap[a].entries| <= count && count + |es| <= inp.limits.maxItems
    requires EntriesRead(inp, s, a, es, end) && Peeks(inp, end, 'z' as int)
    ensures ReadEntries(inp, s, a, count) == R.Ok((), end.(offset := end.offset + 1))
    decreases |es|
  {
    hide *;
    if es == [] {
      LastEntry(inp, s, a, end);
      NoEntriesRead(inp, s, a, count);
    } else {
      NextEntry(inp, s, a, es, end);
      EntryTurn(inp, s, a, count);
      EntriesAllRead(inp, ReadPair(inp, s, a).st, a, count + 1, es[1..], end);
    }
  }

  lemma {:induction false} LastEntry(inp: Input, s: DState, a: nat, end: DState)
    requires Valid(inp, s) && EntriesRead(inp, s, a, [], end)
    ensures end == s
  {
    hide Valid;
  }

  /** Keys and values up to an end mark are read as a map of them, if there is room for it and
      every key is rendered. */
  lemma {:induction false} MapRead(inp: Input, s: DState, v: GoVal, first: DState, es: seq<(GoString, GoVal)>, end: DState)
    requires Valid(inp, s) && ReadType(inp, s).Ok? && |ReadType(inp, s).st.refs| < inp.limits.maxRefs
    requires MapOpened(ReadType(inp, s).st, ReadType(inp, s).v, v, first) && Valid(inp, first)
    requires EntriesRead(inp, first, |ReadType(inp, s).st.heap|, es, end) && Peeks(inp, end, 'z' as int)
    requires |es| <= inp.limits.maxItems
    ensures ReadMap(inp, s) == R.Ok(v, end.(offset := end.offset + 1))
  {
    hide ReadType, ReadEntries, OpenMap, Valid, Grew, EntriesRead, MapOpened;
    var t := ReadType(inp, s);
    Opens(inp, t.st, t.v);
    OpenedIs(inp, t.st, t.v);
    OpenedOnce(t.st, t.v, v, first, OpenMap(inp, t.st, t.v).v, OpenMap(inp, t.st, t.v).st);
    EntriesAllRead(inp, first, |t.st.heap|, 0, es, end);
  }

  lemma {:induction false} Opens(inp: Input, s: DState, typeName: GoString)
    requires Valid(inp, s) && |s.refs| < inp.limits.maxRefs
    ensures OpenMap(inp, s, typeName).Ok?
  {
    hide Valid, Grew;
  }

  lemma {:induction false} OpenedOnce(s: DState, typeName: GoString, v: GoVal, first: DState, u: GoVal, other: DState)
    requires MapOpened(s, typeName, v, first) && MapOpened(s, typeName, u, other)
    ensures v == u && first == other
  {
  }

  // ------------------------------------------------------------------
  // Which tag introduces what

  /** What stands behind the tag, read one level deeper, is the value. */
  ghost predicate Yields(inp: Input, s: DState, v: GoVal, st: DState)
    requires Valid(inp, s)
  {
    st.depth > 0 && ReadValue(inp, s) == R.Ok(v, st.(depth := st.depth - 1))
  }

  lemma {:induction false} TagYields(inp: Input, s: DState, tag: byte)
    requires Valid(inp, s) && s.depth < inp.limits.maxDepth && Peeks(inp, s, tag)
    ensures var s1 := s.(depth := s.depth + 1, offset := s.offset + 1);
            && Valid(inp, s1)
            && (ReadTagged(inp, s1, tag).Ok? ==> Yields(inp, s, ReadTagged(inp, s1, tag).v, ReadTagged(inp, s1, tag).st))
  {
    hide ReadTagged, ValidHeap;
  }

  /** Behind 'S', 's' and the tags up to 0x1f there is text, and behind 'B', 'b' and those from
      0x20 to 0x2f there are bytes. */
  lemma {:induction false} TextBehind(inp: Input, s: DState, tag: byte)
    requires Valid(inp, s) && s.depth < inp.limits.maxDepth && Peeks(inp, s, tag)
    ensures var s1 := s.(depth := s.depth + 1, offset := s.offset + 1);
            && Valid(inp, s1)
            && (tag <= 0x1f || tag == 'S' as int || tag == 's' as int ==>
                  var r := ReadChunks(inp, s1, tag, []); r.Ok? ==> Yields(inp, s, GString(r.v), r.st))
            && (0x20 <= tag <= 0x2f || tag == 'B' as int || tag == 'b' as int ==>
                  var r := ReadBlob(inp, s1, tag, []); r.Ok? ==> Yields(inp, s, GBytes(r.v), r.st))
  {
    hide *;
    TagYields(inp, s, tag);
    TaggedText(inp, s.(depth := s.depth + 1, offset := s.offset + 1), tag);
  }

  lemma {:induction false} TaggedText(inp: Input, s: DState, tag: byte)
    requires Valid(inp, s)
    ensures tag <= 0x1f || tag == 'S' as int || tag == 's' as int ==>
              var r := ReadChunks(inp, s, tag, []); r.Ok? ==> ReadTagged(inp, s, tag) == R.Ok(GString(r.v), r.st)
    ensures 0x20 <= tag <= 0x2f || tag == 'B' as int || tag == 'b' as int ==>
              var r := ReadBlob(inp, s, tag, []); r.Ok? ==> ReadTagged(inp, s, tag) == R.Ok(GBytes(r.v), r.st)
  {
    hide ReadChunks, ReadBlob, ReadValue, Valid, Safe, ReadNumber, ReadRef, ReadInt32, ReadUint16, ReadByte, ReadCompact, ReadInt64;
    hide ReadList, ReadFixedTypedList, ReadMap, ReadObjectInstance, ReadObjectDefinition;
  }

  /** Behind 'V' there is a list, behind 'v' one with numbers for type and length, behind 'M' a
      map, behind 'o' an object, and behind 'O' a definition and then another value. */
  lemma {:induction false} ContainerBehind(inp: Input, s: DState, tag: byte)
    requires Valid(inp, s) && s.depth < inp.limits.maxDepth && Peeks(inp, s, tag)
    ensures var s1 := s.(depth := s.depth + 1, offset := s.offset + 1);
            && Valid(inp, s1)
            && (tag == 'V' as int ==> var r := ReadList(inp, s1); r.Ok? ==> Yields(inp, s, r.v, r.st))
            && (tag == 'v' as int ==> var r := ReadFixedTypedList(inp, s1); r.Ok? ==> Yields(inp, s, r.v, r.st))
            && (tag == 'M' as int ==> var r := ReadMap(inp, s1); r.Ok? ==> Yields(inp, s, r.v, r.st))
            && (tag == 'o' as int ==> var r := ReadObjectInstance(inp, s1); r.Ok? ==> Yields(inp, s, r.v, r.st))
            && (tag == 'O' as int ==>
                  var d := ReadObjectDefinition(inp, s1);
                  d.Ok? && ReadValue(inp, d.st).Ok? ==> Yields(inp, s, ReadValue(inp, d.st).v, ReadValue(inp, d.st).st))
  {
    hide *;
    TagYields(inp, s, tag);
    DefinitionValid(inp, s.(depth := s.depth + 1, offset := s.offset + 1));
    TaggedContainer(inp, s.(depth := s.depth + 1, offset := s.offset + 1), tag);
  }

  lemma {:induction false} TaggedContainer(inp: Input, s: DState, tag: byte)
    requires Valid(inp, s) && (ReadObjectDefinition(inp, s).Ok? ==> Valid(inp, ReadObjectDefinition(inp, s).st))
    ensures tag == 'V' as int ==> ReadTagged(inp, s, tag) == ReadList(inp, s)
    ensures tag == 'v' as int ==> ReadTagged(inp, s, tag) == ReadFixedTypedList(inp, s)
    ensures tag == 'M' as int ==> ReadTagged(inp, s, tag) == ReadMap(inp, s)
    ensures tag == 'o' as int ==> ReadTagged(inp, s, tag) == ReadObjectInstance(inp, s)
    ensures tag == 'O' as int && ReadObjectDefinition(inp, s).Ok? ==>
              ReadTagged(inp, s, tag) == ReadValue(inp, ReadObjectDefinition(inp, s).st)
  {
    hide ReadValue, Valid, Safe, ReadNumber, ReadRef, ReadInt32, ReadUint16, ReadByte, ReadStringWithTag, ReadBlob;
    hide ReadList, ReadFixedTypedList, ReadMap, ReadObjectInstance, ReadObjectDefinition;
  }

  lemma {:induction false} DefinitionValid(inp: Input, s: DState)
    requires Valid(inp, s)
    ensures ReadObjectDefinition(inp, s).Ok? ==> Valid(inp, ReadObjectDefinition(inp, s).st)
  {
    hide ReadObjectDefinition, Valid;
  }
}

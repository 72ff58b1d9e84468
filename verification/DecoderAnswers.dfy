/** What the decoder's answers say about the bytes it was given: which integers, texts and
    byte strings they hold, and what the numbers in its tables stand for. */
module DecoderAnswers {
  import opened Bytes
  import opened GoValues
  import opened HessianDecoding
  import opened HessianRoundTrip
  import opened DecoderEnds

  // ------------------------------------------------------------------
  // Integers: read exactly where they are written

  lemma {:induction false} Int32Exactly(inp: Input, s: DState, v: int32)
    requires Valid(inp, s)
    ensures ReadInt32(inp, s).Ok? <==> s.offset + 4 <= |inp.data|
    ensures ReadInt32(inp, s).Ok? ==> ReadInt32(inp, s).st == s.(offset := s.offset + 4)
    ensures ReadInt32(inp, s) == Ok(v, s.(offset := s.offset + 4)) <==> At(inp, s.offset, Be32(v))
  {
    hide Valid, Safe, Be32, FromBe32;
    if s.offset + 4 <= |inp.data| {
      Be32Signed(inp.data[s.offset..s.offset + 4]);
      SignedBe32(v);
    }
  }

  lemma {:induction false} Int64Exactly(inp: Input, s: DState, v: int64)
    requires Valid(inp, s)
    ensures ReadInt64(inp, s).Ok? <==> s.offset + 8 <= |inp.data|
    ensures ReadInt64(inp, s).Ok? ==> ReadInt64(inp, s).st == s.(offset := s.offset + 8)
    ensures ReadInt64(inp, s) == Ok(v, s.(offset := s.offset + 8)) <==> At(inp, s.offset, Be64(v))
  {
    hide Valid, Safe, Be64, FromBe64;
    if s.offset + 8 <= |inp.data| {
      Be64Signed(inp.data[s.offset..s.offset + 8]);
      SignedBe64(v);
    }
  }

  lemma {:induction false} OneRead(inp: Input, s: DState)
    requires Valid(inp, s)
    ensures ReadByte(inp, s) == if s.offset < |inp.data| then R.Ok(inp.data[s.offset], s.(offset := s.offset + 1)) else R.Fail(s)
  {
    hide Valid;
  }

  lemma {:induction false} TwoRead(inp: Input, s: DState)
    requires Valid(inp, s)
    ensures ReadUint16(inp, s).Ok? <==> s.offset + 2 <= |inp.data|
    ensures s.offset + 2 <= |inp.data| ==>
              ReadUint16(inp, s) == R.Ok(FromBe16(inp.data[s.offset], inp.data[s.offset + 1]), s.(offset := s.offset + 2))
  {
    hide ReadByte, ValidHeap;
    OneRead(inp, s);
    if s.offset < |inp.data| {
      OneRead(inp, s.(offset := s.offset + 1));
    }
  }

  lemma {:induction false} Uint16Exactly(inp: Input, s: DState, v: nat)
    requires Valid(inp, s) && v < TWO_16
    ensures ReadUint16(inp, s).Ok? <==> s.offset + 2 <= |inp.data|
    ensures ReadUint16(inp, s).Ok? ==> ReadUint16(inp, s).st == s.(offset := s.offset + 2)
    ensures ReadUint16(inp, s) == Ok(v, s.(offset := s.offset + 2)) <==> At(inp, s.offset, Be16(v))
  {
    hide Valid, ReadUint16, Safe;
    TwoRead(inp, s);
    if s.offset + 2 <= |inp.data| {
      assert inp.data[s.offset..s.offset + 2] == [inp.data[s.offset], inp.data[s.offset + 1]];
    }
  }

  // ------------------------------------------------------------------
  // Runes

  /** A first rune that fits into the front of a string is cut alike there. */
  lemma {:induction false} RuneSizeFront(s: GoString, m: nat)
    requires s != [] && RuneSize(s) <= m <= |s|
    ensures RuneSize(s[..m]) == RuneSize(s)
  {
  }

  lemma {:induction false} OneRune(s: GoString, m: nat)
    requires s != [] && RuneSize(s) <= m <= |s|
    ensures RuneCount(s[..m]) == 1 + RuneCount(s[RuneSize(s)..m])
  {
    hide RuneSize;
    RuneSizeFront(s, m);
    assert s[..m][RuneSize(s)..] == s[RuneSize(s)..m];
  }

  lemma {:induction false} RunesCounted(data: seq<byte>, o: nat, n: nat)
    requires o <= |data|
    ensures var (enough, end) := SkipRunes(data, o, n);
            && (enough <==> n <= RuneCount(data[o..]))
            && (enough ==> RuneCount(data[o..end]) == n)
    decreases n
  {
    hide RuneSize, RuneCount;
    if n == 0 {
      assert data[o..o] == [];
    } else if o < |data| {
      var rest := data[o..];
      var k := RuneSize(rest);
      var (enough, end) := SkipRunes(data, o + k, n - 1);
      RunesCounted(data, o + k, n - 1);
      OneRune(rest, |rest|);
      OneRune(rest, end - o);
      assert rest[..|rest|] == rest && rest[k..|rest|] == data[o + k..];
      assert rest[..end - o] == data[o..end] && rest[k..end - o] == data[o + k..end];
    }
  }

  /** The text read is the next n runes of the data; it is refused when there are not so
      many, or when they take more bytes than a scalar may have. */
  lemma {:induction false} RunesAnswer(inp: Input, s: DState, n: int)
    requires Valid(inp, s)
    ensures var r := ReadRunes(inp, s, n);
            if r.Ok? then
              && At(inp, s.offset, r.v) && RuneCount(r.v) == n && |r.v| <= inp.limits.maxScalar
              && r.st == s.(offset := s.offset + |r.v|)
            else
              || n < 0 || RuneCount(inp.data[s.offset..]) < n
              || SkipRunes(inp.data, s.offset, n).1 - s.offset > inp.limits.maxScalar
  {
    hide ValidHeap, Safe, RuneCount, SkipRunes;
    if n >= 0 {
      RunesCounted(inp.data, s.offset, n);
    }
  }

  // ------------------------------------------------------------------
  // Chunks

  /** One piece of a text or byte string: its tag, the length it announces, its content. */
  datatype Chunk = Chunk(tag: byte, length: nat, content: seq<byte>)

  /** The bytes from the length of the first chunk on. Compact tags hold their length. */
  function Layout(cs: seq<Chunk>): seq<byte> {
    if cs == [] then []
    else
      (if cs[0].tag <= 0x2f then [] else Be16(cs[0].length)) + cs[0].content
      + (if |cs| == 1 then [] else [cs[1].tag] + Layout(cs[1..]))
  }

  function Contents(cs: seq<Chunk>): seq<byte> {
    if cs == [] then [] else cs[0].content + Contents(cs[1..])
  }

  predicate TextChunk(c: Chunk) {
    && c.length == RuneCount(c.content) && c.length < TWO_16
    && (c.tag == 'S' as int || c.tag == 's' as int || c.tag == c.length <= 0x1f)
  }

  predicate BlobChunk(c: Chunk) {
    && c.length == |c.content| && c.length < TWO_16
    && (c.tag == 'B' as int || c.tag == 'b' as int || 0x20 <= c.tag == c.length + 0x20 <= 0x2f)
  }

  /** All chunks but the last carry the tag that says more follows. */
  predicate Ended(cs: seq<Chunk>, more: char)
    requires more == 's' || more == 'b'
  {
    cs != [] && forall i | 0 <= i < |cs| :: cs[i].tag == more as int <==> i < |cs| - 1
  }

  lemma {:induction false} AtJoined(inp: Input, o: nat, a: seq<byte>, b: seq<byte>)
    requires At(inp, o, a) && At(inp, o + |a|, b)
    ensures At(inp, o, a + b)
  {
    assert inp.data[o..o + |a + b|] == inp.data[o..o + |a|] + inp.data[o + |a|..o + |a| + |b|];
  }

  lemma {:induction false} AtOne(inp: Input, o: nat)
    requires o < |inp.data|
    ensures At(inp, o, [inp.data[o]])
  {
    assert inp.data[o..o + 1] == [inp.data[o]];
  }

  lemma {:induction false} AtNothing(inp: Input, s: DState)
    requires Valid(inp, s)
    ensures At(inp, s.offset, [])
  {
    hide ValidHeap;
  }

  /** The chunk c at offset o, then the tag and the layout of those behind it. */
  lemma {:induction false} ChunkInFront(inp: Input, o: nat, c: Chunk, rest: seq<Chunk>)
    requires At(inp, o, if c.tag <= 0x2f then [] else Be16(c.length))
    requires var at := o + if c.tag <= 0x2f then 0 else 2;
             && At(inp, at, c.content)
             && (rest != [] ==> At(inp, at + |c.content|, [rest[0].tag]) && At(inp, at + |c.content| + 1, Layout(rest)))
    ensures At(inp, o, Layout([c] + rest))
    ensures |Layout([c] + rest)| == (if c.tag <= 0x2f then 0 else 2) + |c.content| + (if rest == [] then 0 else 1 + |Layout(rest)|)
    ensures Contents([c] + rest) == c.content + Contents(rest)
  {
    hide At, Be16;
    var cs := [c] + rest;
    assert cs[1..] == rest;
    var head := if c.tag <= 0x2f then [] else Be16(c.length);
    AtJoined(inp, o, head, c.content);
    if rest == [] {
      assert head + c.content + [] == head + c.content;
    } else {
      AtJoined(inp, o + |head| + |c.content|, [rest[0].tag], Layout(rest));
      AtJoined(inp, o, head + c.content, [rest[0].tag] + Layout(rest));
      assert cs[1] == rest[0];
    }
  }

  lemma {:induction false} EndedInFront(c: Chunk, rest: seq<Chunk>, more: char)
    requires more == 's' || more == 'b'
    requires if c.tag == more as int then Ended(rest, more) else rest == []
    ensures Ended([c] + rest, more)
  {
    var cs := [c] + rest;
    forall i | 0 <= i < |cs| ensures cs[i].tag == more as int <==> i < |cs| - 1 {
      assert i > 0 ==> cs[i] == rest[i - 1];
    }
  }

  /** Where the text of a chunk begins: behind its length, if that is not in the tag. */
  ghost function TextStart(inp: Input, s: DState, tag: byte): (r: R<int>)
    requires Valid(inp, s)
    ensures r.Ok? ==> Valid(inp, r.st)
  {
    if tag <= 0x1f then Ok(tag, s) else ReadUint16(inp, s)
  }

  /** One turn of reading chunks. */
  lemma {:induction false} ChunkTurn(inp: Input, s: DState, tag: byte, out: GoString)
    requires Valid(inp, s) && ReadChunks(inp, s, tag, out).Ok?
    ensures tag <= 0x1f || tag == 'S' as int || tag == 's' as int
    ensures TextStart(inp, s, tag).Ok?
    ensures var s1 := TextStart(inp, s, tag);
            var r := ReadRunes(inp, s1.st, s1.v);
            && r.Ok? && Valid(inp, r.st)
            && if tag == 's' as int then
                 var next := ReadByte(inp, r.st);
                 next.Ok? && Valid(inp, next.st) && ReadChunks(inp, s, tag, out) == ReadChunks(inp, next.st, next.v, out + r.v)
               else ReadChunks(inp, s, tag, out) == Ok(out + r.v, r.st)
  {
    hide ReadRunes, ReadUint16, ReadByte, Valid, Grew;
  }

  lemma {:induction false} TextStarts(inp: Input, s: DState, tag: byte)
    requires Valid(inp, s) && TextStart(inp, s, tag).Ok?
    requires tag <= 0x1f || tag == 'S' as int || tag == 's' as int
    ensures var r := TextStart(inp, s, tag);
            && At(inp, s.offset, if tag <= 0x2f then [] else Be16(r.v))
            && 0 <= r.v < TWO_16 && r.st == s.(offset := s.offset + if tag <= 0x2f then 0 else 2)
            && (tag <= 0x1f ==> r.v == tag)
  {
    AtNothing(inp, s);
    hide ReadUint16, Valid, At, Be16;
    if tag > 0x1f {
      Uint16Exactly(inp, s, ReadUint16(inp, s).v);
    }
  }

  lemma {:induction false} NextByte(inp: Input, s: DState)
    requires Valid(inp, s) && ReadByte(inp, s).Ok?
    ensures s.offset < |inp.data| && ReadByte(inp, s) == Ok(inp.data[s.offset], s.(offset := s.offset + 1))
  {
    hide Valid;
  }

  /** The length of a text chunk, its runes, and what comes behind them. */
  lemma {:induction false} TextChunkRead(inp: Input, s: DState, tag: byte, out: GoString) returns (c: Chunk, s2: DState)
    requires Valid(inp, s) && ReadChunks(inp, s, tag, out).Ok?
    ensures TextChunk(c) && c.tag == tag && Valid(inp, s2)
    ensures At(inp, s.offset, if tag <= 0x2f then [] else Be16(c.length))
    ensures var at := s.offset + if tag <= 0x2f then 0 else 2;
            At(inp, at, c.content) && s2 == s.(offset := at + |c.content|)
    ensures if tag == 's' as int then
              var next := ReadByte(inp, s2);
              next.Ok? && Valid(inp, next.st) && ReadChunks(inp, s, tag, out) == ReadChunks(inp, next.st, next.v, out + c.content)
            else ReadChunks(inp, s, tag, out) == Ok(out + c.content, s2)
  {
    hide ReadChunks, ReadRunes, ReadByte, TextStart, Valid, At, Be16, RuneCount, SkipRunes, Safe;
    ChunkTurn(inp, s, tag, out);
    TextStarts(inp, s, tag);
    var n, s1 := TextStart(inp, s, tag).v, TextStart(inp, s, tag).st;
    RunesAnswer(inp, s1, n);
    var r := ReadRunes(inp, s1, n);
    c, s2 := Chunk(tag, n, r.v), r.st;
  }

  /** A text is the content of its chunks, one after the other, and they are what was read. */
  lemma {:induction false} ChunksJoined(inp: Input, s: DState, tag: byte, out: GoString) returns (cs: seq<Chunk>)
    requires Valid(inp, s) && ReadChunks(inp, s, tag, out).Ok?
    ensures Ended(cs, 's') && cs[0].tag == tag && forall i | 0 <= i < |cs| :: TextChunk(cs[i])
    ensures At(inp, s.offset, Layout(cs))
    ensures ReadChunks(inp, s, tag, out) == Ok(out + Contents(cs), s.(offset := s.offset + |Layout(cs)|))
    decreases |inp.data| - s.offset
  {
    hide ReadChunks, ReadByte, Valid, At, TextChunk, Be16, Layout, Safe;
    var c, s2 := TextChunkRead(inp, s, tag, out);
    var rest := [];
    if tag == 's' as int {
      NextByte(inp, s2);
      AtOne(inp, s2.offset);
      rest := ChunksJoined(inp, ReadByte(inp, s2).st, inp.data[s2.offset], out + c.content);
      assert rest != [];
    } else {
      assert c.content + Contents(rest) == c.content;
    }
    EndedInFront(c, rest, 's');
    ChunkInFront(inp, s.offset, c, rest);
    assert out + c.content + Contents(rest) == out + (c.content + Contents(rest));
    cs := [c] + rest;
  }

  lemma {:induction false} BlobTurn(inp: Input, s: DState, tag: byte, out: seq<byte>)
    requires Valid(inp, s) && ReadBlob(inp, s, tag, out).Ok?
    ensures ReadBlobLength(inp, s, tag).Ok? && Valid(inp, ReadBlobLength(inp, s, tag).st)
    ensures var n := ReadBlobLength(inp, s, tag);
            var r := TakeBytes(inp, n.st, n.v, |out|);
            && r.Ok? && Valid(inp, r.st)
            && if tag == 'b' as int then
                 var next := ReadByte(inp, r.st);
                 next.Ok? && Valid(inp, next.st) && ReadBlob(inp, s, tag, out) == ReadBlob(inp, next.st, next.v, out + r.v)
               else ReadBlob(inp, s, tag, out) == Ok(out + r.v, r.st)
  {
    hide ReadBlobLength, TakeBytes, ReadByte, Valid, Grew;
  }

  lemma {:induction false} BlobStarts(inp: Input, s: DState, tag: byte)
    requires Valid(inp, s) && ReadBlobLength(inp, s, tag).Ok?
    ensures 0x20 <= tag <= 0x2f || tag == 'B' as int || tag == 'b' as int
    ensures var r := ReadBlobLength(inp, s, tag);
            && At(inp, s.offset, if tag <= 0x2f then [] else Be16(r.v))
            && 0 <= r.v < TWO_16 && r.st == s.(offset := s.offset + if tag <= 0x2f then 0 else 2)
            && (tag <= 0x2f ==> tag == r.v + 0x20)
  {
    AtNothing(inp, s);
    hide ReadUint16, Valid, At, Be16;
    if tag > 0x2f {
      Uint16Exactly(inp, s, ReadUint16(inp, s).v);
    }
  }

  lemma {:induction false} BytesTaken(inp: Input, s: DState, n: nat, have: nat)
    requires Valid(inp, s) && TakeBytes(inp, s, n, have).Ok?
    ensures var r := TakeBytes(inp, s, n, have);
            |r.v| == n && At(inp, s.offset, r.v) && r.st == s.(offset := s.offset + n)
  {
    hide Valid;
  }

  lemma {:induction false} BlobChunkRead(inp: Input, s: DState, tag: byte, out: seq<byte>) returns (c: Chunk, s2: DState)
    requires Valid(inp, s) && ReadBlob(inp, s, tag, out).Ok?
    ensures BlobChunk(c) && c.tag == tag && Valid(inp, s2)
    ensures At(inp, s.offset, if tag <= 0x2f then [] else Be16(c.length))
    ensures var at := s.offset + if tag <= 0x2f then 0 else 2;
            At(inp, at, c.content) && s2 == s.(offset := at + |c.content|)
    ensures if tag == 'b' as int then
              var next := ReadByte(inp, s2);
              next.Ok? && Valid(inp, next.st) && ReadBlob(inp, s, tag, out) == ReadBlob(inp, next.st, next.v, out + c.content)
            else ReadBlob(inp, s, tag, out) == Ok(out + c.content, s2)
  {
    hide ReadBlob, ReadBlobLength, TakeBytes, ReadByte, Valid, At, Be16, Safe;
    BlobTurn(inp, s, tag, out);
    BlobStarts(inp, s, tag);
    var n, s1 := ReadBlobLength(inp, s, tag).v, ReadBlobLength(inp, s, tag).st;
    BytesTaken(inp, s1, n, |out|);
    var r := TakeBytes(inp, s1, n, |out|);
    c, s2 := Chunk(tag, n, r.v), r.st;
  }

  /** The same for byte strings. */
  lemma {:induction false} BlobJoined(inp: Input, s: DState, tag: byte, out: seq<byte>) returns (cs: seq<Chunk>)
    requires Valid(inp, s) && ReadBlob(inp, s, tag, out).Ok?
    ensures Ended(cs, 'b') && cs[0].tag == tag && forall i | 0 <= i < |cs| :: BlobChunk(cs[i])
    ensures At(inp, s.offset, Layout(cs))
    ensures ReadBlob(inp, s, tag, out) == Ok(out + Contents(cs), s.(offset := s.offset + |Layout(cs)|))
    decreases |inp.data| - s.offset
  {
    hide ReadBlob, ReadByte, Valid, At, BlobChunk, Be16, Layout, Safe;
    var c, s2 := BlobChunkRead(inp, s, tag, out);
    var rest := [];
    if tag == 'b' as int {
      NextByte(inp, s2);
      AtOne(inp, s2.offset);
      rest := BlobJoined(inp, ReadByte(inp, s2).st, inp.data[s2.offset], out + c.content);
      assert rest != [];
    } else {
      assert c.content + Contents(rest) == c.content;
    }
    EndedInFront(c, rest, 'b');
    ChunkInFront(inp, s.offset, c, rest);
    assert out + c.content + Contents(rest) == out + (c.content + Contents(rest));
    cs := [c] + rest;
  }

  // ------------------------------------------------------------------
  // Numbers in the tables

  /** A number given once stands for the same thing in every later state. */
  lemma {:induction false} NumbersKept(inp: Input, s: DState, later: DState, v: GoVal, def: ClassDef, typeName: GoString)
    requires Valid(inp, s) && Valid(inp, later)
    ensures IsContainer(v) && ValidVal(s.heap, v) && AddRef(inp, s, v).Ok? && Grew(AddRef(inp, s, v).st, later) ==>
              ReadRef(inp, later, |s.refs|) == Ok(v, later)
    ensures |def.fieldNames| <= inp.limits.maxItems && AddClassDef(inp, s, def).Ok? && Grew(AddClassDef(inp, s, def).st, later) ==>
              |s.classDefs| < |later.classDefs| && later.classDefs[|s.classDefs|] == def
    ensures AddType(inp, s, typeName).Ok? && Grew(AddType(inp, s, typeName).st, later) ==>
              |s.types| < |later.types| && later.types[|s.types|] == typeName
    ensures Grew(s, later) ==> forall ref :: ReadRef(inp, s, ref).Ok? ==> ReadRef(inp, later, ref) == Ok(ReadRef(inp, s, ref).v, later)
  {
    hide ValidHeap;
  }

  /** A type that is named is in the table from then on. */
  lemma {:induction false} TypeKnown(inp: Input, s: DState)
    requires Valid(inp, s) && ReadType(inp, s).Ok? && ReadType(inp, s).v != []
    ensures ReadType(inp, s).v in ReadType(inp, s).st.types
  {
    hide ReadIntValue, ReadRunes, ReadUint16, Valid, Grew;
  }

  /** A list takes its number after all its items: it has the last number given. */
  lemma {:induction false} ListNumberedLast(inp: Input, s: DState)
    requires Valid(inp, s)
    ensures var r := ReadList(inp, s); r.Ok? ==> r.st.refs != [] && r.st.refs[|r.st.refs| - 1] == r.v
    ensures var r := ReadFixedTypedList(inp, s); r.Ok? ==> r.st.refs != [] && r.st.refs[|r.st.refs| - 1] == r.v
  {
    hide ReadType, ReadLength, ReadListBody, ReadIntValue, ReadItems, Valid, Grew;
  }

  /** A map takes its number before its entries are read, so that they can refer to it. */
  lemma {:induction false} MapNumberedFirst(inp: Input, s: DState)
    requires Valid(inp, s) && ReadMap(inp, s).Ok?
    ensures ReadType(inp, s).Ok?
    ensures var n, r := |ReadType(inp, s).st.refs|, ReadMap(inp, s);
            n < |r.st.refs| && r.st.refs[n] == r.v
  {
    assert inp.limits.maxItems > 0;
    hide ReadType, ReadEntries, OpenMap, Valid, Grew;
    var s1 := ReadType(inp, s).st;
    MapOpens(inp, s1, ReadType(inp, s).v);
    var s2 := OpenMap(inp, s1, ReadType(inp, s).v).st;
    FilledNumbers(inp, s2, |s1.heap|, ReadEntries(inp, s2, |s1.heap|, 0));
  }

  lemma {:induction false} MapOpens(inp: Input, s: DState, typeName: GoString)
    requires Valid(inp, s) && OpenMap(inp, s, typeName).Ok?
    ensures var r := OpenMap(inp, s, typeName); r.st.refs == s.refs + [r.v]
  {
    hide Valid, Grew;
  }

  lemma {:induction false} FilledNumbers(inp: Input, s: DState, a: nat, r: R<()>)
    requires SafeFilling(inp, s, a, r) && r.Ok?
    ensures s.refs <= r.st.refs
  {
  }

  /** The fields of an object are those of its definition, each once read. */
  lemma {:induction false} FieldsComplete(inp: Input, s: DState, a: nat, names: seq<GoString>)
    requires Valid(inp, s) && a < |s.heap| && s.heap[a].OMap? && |s.heap[a].entries| + |names| <= inp.limits.maxItems
    requires ReadFields(inp, s, a, names).Ok?
    ensures ReadFields(inp, s, a, names).st.heap[a].OMap?
    ensures ReadFields(inp, s, a, names).st.heap[a].entries.Keys == s.heap[a].entries.Keys + set k | k in names
    decreases |names|
  {
    hide *;
    if names == [] {
      NoFields(inp, s, a);
    } else {
      FieldTurn(inp, s, a, names);
      var r := ReadValue(inp, s);
      FieldsComplete(inp, r.st.(heap := PutEntry(r.st.heap, a, names[0], r.v)), a, names[1..]);
      FirstName(names);
    }
  }

  lemma {:induction false} FirstName(names: seq<GoString>)
    requires names != []
    ensures (set k | k in names) == {names[0]} + set k | k in names[1..]
  {
    assert names == [names[0]] + names[1..];
  }

  lemma {:induction false} NoFields(inp: Input, s: DState, a: nat)
    requires Valid(inp, s) && a < |s.heap| && s.heap[a].OMap? && |s.heap[a].entries| <= inp.limits.maxItems
    ensures ReadFields(inp, s, a, []) == Ok((), s)
  {
    hide Valid;
  }

  lemma {:induction false} FieldTurn(inp: Input, s: DState, a: nat, names: seq<GoString>)
    requires Valid(inp, s) && a < |s.heap| && s.heap[a].OMap? && |s.heap[a].entries| + |names| <= inp.limits.maxItems
    requires names != [] && ReadFields(inp, s, a, names).Ok?
    ensures ReadValue(inp, s).Ok?
    ensures var r := ReadValue(inp, s);
            && a < |r.st.heap| && r.st.heap[a] == s.heap[a]
            && var s1 := r.st.(heap := PutEntry(r.st.heap, a, names[0], r.v));
               && Valid(inp, s1) && a < |s1.heap| && s1.heap[a].OMap? && |s1.heap[a].entries| + |names[1..]| <= inp.limits.maxItems
               && s1.heap[a].entries.Keys == s.heap[a].entries.Keys + {names[0]}
               && ReadFields(inp, s, a, names) == ReadFields(inp, s1, a, names[1..])
  {
    hide ReadValue;
    var r := ReadValue(inp, s);
    PutValid(inp, r.st, a, names[0], r.v);
    PutSize(r.st.heap, a, names[0], r.v);
  }

  /** An object takes its number before its fields are read, and has exactly the fields its
      definition names. */
  lemma {:induction false} ObjectNumberedFirst(inp: Input, s: DState)
    requires Valid(inp, s) && ReadObjectInstance(inp, s).Ok?
    ensures var ref := ReadIntValue(inp, s);
            && ref.Ok? && 0 <= ref.v < |ref.st.classDefs|
            && var r, def := ReadObjectInstance(inp, s), ref.st.classDefs[ref.v];
               && |ref.st.refs| < |r.st.refs| && r.st.refs[|ref.st.refs|] == r.v
               && |ref.st.heap| < |r.st.heap| && r.st.heap[|ref.st.heap|].OMap?
               && r.st.heap[|ref.st.heap|].entries.Keys == (set k | k in def.fieldNames)
               && r.v == GMap(|ref.st.heap| + 1)
  {
    hide ReadIntValue, ReadFields, OpenObject, Valid, Grew;
    var s1 := ReadIntValue(inp, s).st;
    var def := s1.classDefs[ReadIntValue(inp, s).v];
    DefinitionSmall(inp, s1, ReadIntValue(inp, s).v);
    ObjectOpens(inp, s1, def);
    var s2 := OpenObject(inp, s1, def).st;
    FilledNumbers(inp, s2, |s1.heap|, ReadFields(inp, s2, |s1.heap|, def.fieldNames));
    FieldsComplete(inp, s2, |s1.heap|, def.fieldNames);
  }

  lemma {:induction false} ObjectOpens(inp: Input, s: DState, def: ClassDef)
    requires Valid(inp, s) && OpenObject(inp, s, def).Ok?
    ensures var r := OpenObject(inp, s, def);
            r.st.refs == s.refs + [r.v] && r.v == GMap(|s.heap| + 1) && r.st.heap[|s.heap|] == OMap(map[])
  {
    hide Valid, Grew;
  }

  /** A definition that was read is the last in the table, with as many names as it announced. */
  lemma {:induction false} DefinitionLast(inp: Input, s: DState)
    requires Valid(inp, s) && ReadObjectDefinition(inp, s).Ok?
    ensures ReadLenString(inp, s).Ok?
    ensures var n := ReadIntValue(inp, ReadLenString(inp, s).st);
            n.Ok? && var cds := ReadObjectDefinition(inp, s).st.classDefs;
            && s.classDefs < cds
            && cds[|cds| - 1].typeName == ReadLenString(inp, s).v && |cds[|cds| - 1].fieldNames| == n.v
  {
    hide ReadLenString, ReadIntValue, ReadNames, Valid;
  }
}
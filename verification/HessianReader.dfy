/** The Hessian reader as the program keeps it: an offset, a depth counter and three
    tables, updated in place while loops consume the data. Every method is proved to
    leave exactly the state, and give exactly the outcome, its specification says. */
module HessianReader {
  import opened Options
  import opened Bytes
  import opened GoValues
  import opened HessianDecoding

  /** Diverged marks the one thing the reader does that never ends; see KeyText. */
  datatype Outcome<+T> = Done(v: T) | Error | Diverged {
    predicate IsFailure() { !Done? }
    function PropagateFailure<U>(): Outcome<U>
      requires IsFailure()
    {
      if Error? then Outcome<U>.Error else Outcome<U>.Diverged
    }
    function Extract(): T
      requires Done?
    {
      v
    }
  }

  class Decoder {
    const inp: Input
    var offset: nat
    var depth: nat
    var heap: Heap
    var refs: seq<GoVal>
    var classDefs: seq<ClassDef>
    var types: seq<GoString>

    constructor (data: seq<byte>, limits: Limits, sprint: Tree -> GoString)
      ensures inp == Input(data, limits.Ensured(), sprint)
      ensures State() == DState(0, 0, [], [], [], []) && Valid(inp, State())
    {
      inp := Input(data, limits.Ensured(), sprint);
      offset, depth, heap, refs, classDefs, types := 0, 0, [], [], [], [];
    }

    function State(): DState
      reads this
    {
      DState(offset, depth, heap, refs, classDefs, types)
    }

    /** The method did what the specification says, up to and including the state it leaves. */
    ghost predicate Did<T>(r: R<T>, o: Outcome<T>)
      reads this
    {
      match r
      case Ok(v, st) => o == Done(v) && State() == st
      case Fail(st) => o == Error && State() == st
      case Diverge(_) => o == Diverged
    }

    /** What holds of the fields after any read that comes back, whether it succeeded or not. */
    ghost predicate Kept(before: DState)
      reads this
    {
      && depth == before.depth && before.offset <= offset <= |inp.data|
      && before.heap <= heap && before.refs <= refs && before.classDefs <= classDefs && before.types <= types
      && |refs| <= inp.limits.maxRefs && |classDefs| <= inp.limits.maxRefs && |types| <= inp.limits.maxRefs
    }

    // ----------------------------------------------------------------
    // Primitive reads

    method ReadByte() returns (o: Outcome<byte>)
      requires Valid(inp, State())
      modifies this
      ensures Did(HessianDecoding.ReadByte(inp, old(State())), o)
    {
      if offset >= |inp.data| {
        return Error;
      }
      o := Done(inp.data[offset]);
      offset := offset + 1;
    }

    function PeekByte(): Option<byte>
      reads this
    {
      if offset >= |inp.data| then None else Some(inp.data[offset])
    }

    method ReadInt32() returns (o: Outcome<int>)
      requires Valid(inp, State())
      modifies this
      ensures Did(HessianDecoding.ReadInt32(inp, old(State())), o)
    {
      if offset + 4 > |inp.data| {
        return Error;
      }
      o := Done(Wrap32(FromBe32(inp.data[offset..offset + 4])));
      offset := offset + 4;
    }

    method ReadInt64() returns (o: Outcome<int64>)
      requires Valid(inp, State())
      modifies this
      ensures Did(HessianDecoding.ReadInt64(inp, old(State())), o)
    {
      if offset + 8 > |inp.data| {
        return Error;
      }
      o := Done(Wrap64(FromBe64(inp.data[offset..offset + 8])));
      offset := offset + 8;
    }

    method ReadUint16() returns (o: Outcome<int>)
      requires Valid(inp, State())
      modifies this
      ensures Did(HessianDecoding.ReadUint16(inp, old(State())), o)
    {
      var hi :- ReadByte();
      var lo :- ReadByte();
      return Done(FromBe16(hi, lo));
    }

    /** readUTF8Bytes: the loop that counts runes. */
    method ReadRunes(n: int) returns (o: Outcome<GoString>)
      requires Valid(inp, State())
      modifies this
      ensures Did(HessianDecoding.ReadRunes(inp, old(State()), n), o)
    {
      if n < 0 {
        return Error;
      }
      var start := offset;
      var count := 0;
      while count < n
        invariant 0 <= count <= n && start <= offset <= |inp.data|
        invariant State() == old(State()).(offset := offset)
        invariant SkipRunes(inp.data, start, n) == SkipRunes(inp.data, offset, n - count)
      {
        if offset >= |inp.data| {
          return Error;
        }
        offset := offset + RuneSize(inp.data[offset..]);
        count := count + 1;
      }
      var raw := inp.data[start..offset];
      if |raw| > inp.limits.maxScalar {
        return Error;
      }
      return Done(raw);
    }

    /** readChunkedString: chunks tagged 's' until one that is not. */
    method ReadChunks(initial: byte) returns (o: Outcome<GoString>)
      requires Valid(inp, State())
      modifies this
      ensures Did(HessianDecoding.ReadChunks(inp, old(State()), initial, []), o)
    {
      var out: GoString := [];
      var tag := initial;
      while true
        invariant Valid(inp, State())
        invariant HessianDecoding.ReadChunks(inp, old(State()), initial, [])
               == HessianDecoding.ReadChunks(inp, State(), tag, out)
        decreases Remaining(inp, State())
      {
        ghost var before := State();
        var n;
        if tag <= 0x1f {
          n := tag;
        } else if tag == 'S' as int || tag == 's' as int {
          n :- ReadUint16();
        } else {
          return Error;
        }
        var chunk :- ReadRunes(n);
        if |out| + |chunk| > inp.limits.maxScalar {
          return Error;
        }
        out := out + chunk;
        if tag != 's' as int {
          return Done(out);
        }
        tag :- ReadByte();
      }
    }

    method ReadBlob(initial: byte) returns (o: Outcome<seq<byte>>)
      requires Valid(inp, State())
      modifies this
      ensures Did(HessianDecoding.ReadBlob(inp, old(State()), initial, []), o)
    {
      hide HessianDecoding.ReadBlobLength, HessianDecoding.TakeBytes, Valid, Grew;
      var out: seq<byte> := [];
      var current := initial;
      while true
        invariant Valid(inp, State())
        invariant HessianDecoding.ReadBlob(inp, old(State()), initial, [])
               == HessianDecoding.ReadBlob(inp, State(), current, out)
        decreases Remaining(inp, State())
      {
        var n :- ReadBlobLength(current);
        var chunk :- TakeBytes(n, |out|);
        out := out + chunk;
        if current != 'b' as int {
          return Done(out);
        }
        current :- ReadByte();
      }
    }

    method ReadBlobLength(tag: byte) returns (o: Outcome<int>)
      requires Valid(inp, State())
      modifies this
      ensures Did(HessianDecoding.ReadBlobLength(inp, old(State()), tag), o)
    {
      if 0x20 <= tag <= 0x2f {
        o := Done(tag - 0x20);
      } else if tag == 'B' as int || tag == 'b' as int {
        o := ReadUint16();
      } else {
        o := Error;
      }
    }

    method TakeBytes(n: nat, have: nat) returns (o: Outcome<seq<byte>>)
      requires Valid(inp, State())
      modifies this
      ensures Did(HessianDecoding.TakeBytes(inp, old(State()), n, have), o)
    {
      if offset + n > |inp.data| {
        return Error;
      }
      if have + n > inp.limits.maxScalar {
        return Error;
      }
      o := Done(inp.data[offset..offset + n]);
      offset := offset + n;
    }

    method ReadCompact(high: int, extra: nat) returns (o: Outcome<int>)
      requires Valid(inp, State()) && extra <= 2 && -0x100 <= high < 0x100
      modifies this
      ensures Did(HessianDecoding.ReadCompact(inp, old(State()), high, extra), o)
    {
      if extra == 0 {
        return Done(high);
      } else if extra == 1 {
        var b :- ReadByte();
        return Done(high * 256 + b);
      } else {
        var w :- ReadUint16();
        return Done(high * TWO_16 + w);
      }
    }

    /** The integer tags; None when tag is not one of them. */
    method ReadIntegerForm(tag: byte) returns (o: Option<Outcome<int64>>)
      requires Valid(inp, State())
      modifies this
      ensures o.None? <==> HessianDecoding.ReadIntegerForm(inp, old(State()), tag).None?
      ensures o.None? ==> State() == old(State())
      ensures o.Some? ==> Did(HessianDecoding.ReadIntegerForm(inp, old(State()), tag).value, o.value)
    {
      hide HessianDecoding.ReadCompact, HessianDecoding.ReadInt32, HessianDecoding.ReadInt64, Valid, Safe;
      var r;
      if 0x80 <= tag <= 0xbf { r := ReadCompact(tag - 0x90, 0); }
      else if 0xc0 <= tag <= 0xcf { r := ReadCompact(tag - 0xc8, 1); }
      else if 0xd0 <= tag <= 0xd7 { r := ReadCompact(tag - 0xd4, 2); }
      else if 0xd8 <= tag <= 0xef { r := ReadCompact(tag - 0xe0, 0); }
      else if 0xf0 <= tag <= 0xff { r := ReadCompact(tag - 0xf8, 1); }
      else if 0x38 <= tag <= 0x3f { r := ReadCompact(tag - 0x3c, 2); }
      else if tag == 'I' as int || tag == 0x77 { r := ReadInt32(); }
      else if tag == 'L' as int {
        var l := ReadInt64();
        return Some(l);
      }
      else { return None; }
      return Some(r);
    }

    method ReadStringWithTag(tag: byte) returns (o: Outcome<GoString>)
      requires Valid(inp, State())
      modifies this
      ensures Did(HessianDecoding.ReadStringWithTag(inp, old(State()), tag), o)
    {
      hide HessianDecoding.ReadIntegerForm, HessianDecoding.ReadChunks, Valid, Safe;
      if tag == 'N' as int { return Done([]); }
      if tag == 'T' as int { return Done(Ascii("true")); }
      if tag == 'F' as int { return Done(Ascii("false")); }
      var integer := ReadIntegerForm(tag);
      if integer.Some? {
        var n :- integer.value;
        return Done(Decimal(n));
      }
      if IsStringTag(tag) {
        o := ReadChunks(tag);
        return;
      }
      return Error;
    }

    // ----------------------------------------------------------------
    // Tables

    method AddRef(v: GoVal) returns (o: Outcome<()>)
      requires Valid(inp, State()) && IsContainer(v) && ValidVal(heap, v)
      modifies this`refs
      ensures Did(HessianDecoding.AddRef(inp, old(State()), v), o)
    {
      if |refs| + 1 > inp.limits.maxRefs {
        return Error;
      }
      refs := refs + [v];
      return Done(());
    }

    method AddClassDef(def: ClassDef) returns (o: Outcome<()>)
      requires Valid(inp, State()) && |def.fieldNames| <= inp.limits.maxItems
      modifies this`classDefs
      ensures Did(HessianDecoding.AddClassDef(inp, old(State()), def), o)
    {
      if |classDefs| + 1 > inp.limits.maxRefs {
        return Error;
      }
      classDefs := classDefs + [def];
      return Done(());
    }

    method AddType(typeName: GoString) returns (o: Outcome<()>)
      requires Valid(inp, State())
      modifies this`types
      ensures Did(HessianDecoding.AddType(inp, old(State()), typeName), o)
    {
      if |types| + 1 > inp.limits.maxRefs {
        return Error;
      }
      types := types + [typeName];
      return Done(());
    }

    method ReadRef(ref: int) returns (o: Outcome<GoVal>)
      requires Valid(inp, State())
      ensures Did(HessianDecoding.ReadRef(inp, State(), ref), o)
    {
      if ref < 0 || ref >= |refs| {
        return Error;
      }
      return Done(refs[ref]);
    }

    // ----------------------------------------------------------------
    // Values

    method ReadValue() returns (o: Outcome<GoVal>)
      requires Valid(inp, State())
      modifies this
      ensures Did(HessianDecoding.ReadValue(inp, old(State())), o)
      ensures o.Diverged? || Kept(old(State()))
      ensures o.Done? ==> old(offset) < offset && ValidVal(heap, o.v)
      decreases Remaining(inp, State()), 0, 0
    {
      hide HessianDecoding.ReadTagged, ValidHeap;
      if depth + 1 > inp.limits.maxDepth {
        return Error;
      }
      depth := depth + 1;
      var tag := ReadByte();
      if tag.Done? {
        o := ReadTagged(tag.v);
      } else {
        o := Error;
      }
      if !o.Diverged? {
        depth := depth - 1;
      }
    }

    method ReadTagged(tag: byte) returns (o: Outcome<GoVal>)
      requires Valid(inp, State())
      modifies this
      ensures Did(HessianDecoding.ReadTagged(inp, old(State()), tag), o)
      decreases Remaining(inp, State()), 9, 0
    {
      hide HessianDecoding.ReadList, HessianDecoding.ReadFixedTypedList, HessianDecoding.ReadMap;
      hide HessianDecoding.ReadObjectDefinition, HessianDecoding.ReadObjectInstance, HessianDecoding.ReadValue;
      hide HessianDecoding.ReadStringWithTag, HessianDecoding.ReadBlob, HessianDecoding.ReadNumber, Valid;
      hide HessianDecoding.ReadInt32, HessianDecoding.ReadUint16, HessianDecoding.ReadByte, HessianDecoding.ReadRef, Grew;
      if tag == 'N' as int { return Done(GNil); }
      if tag == 'T' as int { return Done(GBool(true)); }
      if tag == 'F' as int { return Done(GBool(false)); }
      if IsStringTag(tag) {
        var text :- ReadStringWithTag(tag);
        return Done(GString(text));
      }
      if tag == 'B' as int || tag == 'b' as int || 0x20 <= tag <= 0x2f {
        var raw :- ReadBlob(tag);
        return Done(GBytes(raw));
      }
      if tag == 'V' as int { o := ReadList(); }
      else if tag == 'v' as int { o := ReadFixedTypedList(); }
      else if tag == 'M' as int { o := ReadMap(); }
      else if tag == 'O' as int {
        var _ :- ReadObjectDefinition();
        o := ReadValue();
      }
      else if tag == 'o' as int { o := ReadObjectInstance(); }
      else if tag == 'R' as int {
        var ref :- ReadInt32();
        o := ReadRef(ref);
      }
      else if tag == 0x4a {
        var ref :- ReadByte();
        o := ReadRef(ref);
      }
      else if tag == 0x4b {
        var ref :- ReadUint16();
        o := ReadRef(ref);
      }
      else { o := ReadNumber(tag); }
    }

    method ReadNumber(tag: byte) returns (o: Outcome<GoVal>)
      requires Valid(inp, State())
      modifies this
      ensures Did(HessianDecoding.ReadNumber(inp, old(State()), tag), o)
    {
      hide HessianDecoding.ReadIntegerForm, HessianDecoding.ReadInt32, HessianDecoding.ReadInt64, Valid, Safe;
      hide HessianDecoding.ReadUint16, HessianDecoding.ReadByte;
      var integer := ReadIntegerForm(tag);
      if integer.Some? {
        var n :- integer.value;
        return Done(GInt(n));
      }
      if tag == 0x67 { return Done(GDouble(Whole(0))); }
      if tag == 0x68 { return Done(GDouble(Whole(1))); }
      if tag == 0x69 {
        var b :- ReadByte();
        return Done(GDouble(Whole(Signed(b, 0x80))));
      }
      if tag == 0x6a {
        var w :- ReadUint16();
        return Done(GDouble(Whole(Signed(w, 0x8000))));
      }
      if tag == 0x6b {
        var n :- ReadInt32();
        return Done(GDouble(Single(n % TWO_32)));
      }
      if tag == 'D' as int {
        var n :- ReadInt64();
        return Done(GDouble(Bits(n % TWO_64)));
      }
      if tag == 'd' as int {
        var n :- ReadInt64();
        return Done(GInt(n));
      }
      return Error;
    }

    method ReadIntValue() returns (o: Outcome<int>)
      requires Valid(inp, State())
      modifies this
      ensures Did(HessianDecoding.ReadIntValue(inp, old(State())), o)
      decreases Remaining(inp, State()), 1, 0
    {
      hide HessianDecoding.ReadValue;
      var v :- ReadValue();
      if v.GInt? {
        return Done(v.n);
      }
      return Error;
    }

    method ReadType() returns (o: Outcome<GoString>)
      requires Valid(inp, State())
      modifies this
      ensures Did(HessianDecoding.ReadType(inp, old(State())), o)
      decreases Remaining(inp, State()), 2, 0
    {
      hide HessianDecoding.ReadIntValue, HessianDecoding.ReadRunes, HessianDecoding.ReadUint16, HessianDecoding.AddType;
      var tag := PeekByte();
      if tag == Some('t' as int) {
        offset := offset + 1;
        var n :- ReadUint16();
        var typeName :- ReadRunes(n);
        var _ :- AddType(typeName);
        return Done(typeName);
      }
      if tag == Some('T' as int) || tag == Some(0x75) {
        offset := offset + 1;
        var ref :- ReadIntValue();
        if ref < 0 || ref >= |types| {
          return Error;
        }
        return Done(types[ref]);
      }
      return Done([]);
    }

    method ReadLength() returns (o: Outcome<int>)
      requires Valid(inp, State())
      modifies this
      ensures Did(HessianDecoding.ReadLength(inp, old(State())), o)
    {
      var tag := PeekByte();
      if tag == Some(0x6e) {
        offset := offset + 1;
        o := ReadByte();
      } else if tag == Some('l' as int) {
        offset := offset + 1;
        o := ReadInt32();
      } else {
        o := Done(-1);
      }
    }

    // ----------------------------------------------------------------
    // Containers

    /** Where the list goes once its items are known: the items, then the typed
        wrapper, and only then the reference table. */
    method FinishList(typeName: GoString, items: seq<GoVal>, typed: bool) returns (o: Outcome<GoVal>)
      requires Valid(inp, State()) && |items| <= inp.limits.maxItems && ValidVals(heap, items)
      modifies this
      ensures Did(HessianDecoding.FinishList(inp, old(State()), typeName, items, typed), o)
    {
      hide Safe;
      AllocValid(inp, State(), OSlice(items));
      var list := GSlice(|heap|);
      heap := heap + [OSlice(items)];
      if typed {
        var wrapper := OMap(TypedEntries(typeName, Ascii("items"), list));
        AllocValid(inp, State(), wrapper);
        list := GMap(|heap|);
        heap := heap + [wrapper];
      }
      hide Valid;
      var _ :- AddRef(list);
      return Done(list);
    }

    /** A list of announced length. */
    method ReadItems(n: nat) returns (o: Outcome<seq<GoVal>>)
      requires Valid(inp, State()) && n <= inp.limits.maxItems
      modifies this
      ensures Did(HessianDecoding.ReadItems(inp, old(State()), n, []), o)
      decreases Remaining(inp, State()), 3, n
    {
      hide HessianDecoding.ReadValue, Valid;
      var items: seq<GoVal> := [];
      var i := 0;
      while i < n
        invariant 0 <= i <= n && |items| == i && Valid(inp, State()) && ValidVals(heap, items)
        invariant Remaining(inp, State()) <= Remaining(inp, old(State()))
        invariant HessianDecoding.ReadItems(inp, old(State()), n, [])
               == HessianDecoding.ReadItems(inp, State(), n - i, items)
      {
        ghost var before := heap;
        var v :- ReadValue();
        ValidValsGrow(before, heap, items);
        items := items + [v];
        i := i + 1;
      }
      return Done(items);
    }

    /** A list that runs up to its closing 'z'. */
    method ReadItemsToEnd() returns (o: Outcome<seq<GoVal>>)
      requires Valid(inp, State()) && 0 <= inp.limits.maxItems
      modifies this
      ensures Did(HessianDecoding.ReadItemsToEnd(inp, old(State()), []), o)
      decreases Remaining(inp, State()), 3, 0
    {
      hide HessianDecoding.ReadValue;
      var items: seq<GoVal> := [];
      while true
        invariant |items| <= inp.limits.maxItems && Valid(inp, State()) && ValidVals(heap, items)
        invariant Remaining(inp, State()) <= Remaining(inp, old(State()))
        invariant HessianDecoding.ReadItemsToEnd(inp, old(State()), [])
               == HessianDecoding.ReadItemsToEnd(inp, State(), items)
        decreases Remaining(inp, State())
      {
        var next := PeekByte();
        if next.None? {
          return Error;
        }
        if next == Some('z' as int) {
          offset := offset + 1;
          return Done(items);
        }
        ghost var before := heap;
        var v :- ReadValue();
        ValidValsGrow(before, heap, items);
        items := items + [v];
        if !CollectionFits(inp, |items|) {
          return Error;
        }
      }
    }

    method ReadListBody(length: int) returns (o: Outcome<seq<GoVal>>)
      requires Valid(inp, State())
      modifies this
      ensures Did(HessianDecoding.ReadListBody(inp, old(State()), length), o)
      decreases Remaining(inp, State()), 4, 0
    {
      hide HessianDecoding.ReadItems, HessianDecoding.ReadItemsToEnd;
      if length < 0 {
        o := ReadItemsToEnd();
      } else {
        if !CollectionFits(inp, length) {
          return Error;
        }
        var items :- ReadItems(length);
        if PeekByte() == Some('z' as int) {
          offset := offset + 1;
        }
        o := Done(items);
      }
    }

    method ReadList() returns (o: Outcome<GoVal>)
      requires Valid(inp, State())
      modifies this
      ensures Did(HessianDecoding.ReadList(inp, old(State())), o)
      decreases Remaining(inp, State()), 5, 0
    {
      hide HessianDecoding.ReadType, HessianDecoding.ReadLength, HessianDecoding.ReadListBody, HessianDecoding.FinishList;
      hide Valid, Grew;
      var typeName :- ReadType();
      var length :- ReadLength();
      var items :- ReadListBody(length);
      o := FinishList(typeName, items, typeName != []);
    }

    method ReadFixedTypedList() returns (o: Outcome<GoVal>)
      requires Valid(inp, State())
      modifies this
      ensures Did(HessianDecoding.ReadFixedTypedList(inp, old(State())), o)
      decreases Remaining(inp, State()), 5, 0
    {
      hide HessianDecoding.ReadIntValue, HessianDecoding.ReadItems, HessianDecoding.FinishList, Valid;
      var ref :- ReadIntValue();
      if ref < 0 || ref >= |types| {
        return Error;
      }
      var length :- ReadIntValue();
      if !CollectionFits(inp, length) {
        return Error;
      }
      var items :- ReadItems(length);
      o := FinishList(types[ref], items, true);
    }

    /** The loop over the entries of the map at address a, which other values may
        already refer to. */
    method ReadEntries(a: nat) returns (o: Outcome<()>)
      requires Valid(inp, State()) && a < |heap| && heap[a] == OMap(map[])
      modifies this
      ensures Did(HessianDecoding.ReadEntries(inp, old(State()), a, 0), o)
      decreases Remaining(inp, State()), 4, 0
    {
      hide HessianDecoding.ReadPair, ValidHeap, Grew;
      var count := 0;
      while true
        invariant Valid(inp, State()) && a < |heap| && heap[a].OMap?
        invariant |heap[a].entries| <= count <= inp.limits.maxItems
        invariant Remaining(inp, State()) <= Remaining(inp, old(State()))
        invariant HessianDecoding.ReadEntries(inp, old(State()), a, 0)
               == HessianDecoding.ReadEntries(inp, State(), a, count)
        decreases Remaining(inp, State())
      {
        var next := PeekByte();
        if next.None? {
          return Error;
        }
        if next == Some('z' as int) {
          offset := offset + 1;
          return Done(());
        }
        var _ :- ReadPair(a);
        count := count + 1;
        if !CollectionFits(inp, count) {
          return Error;
        }
      }
    }

    /** entries[fmt.Sprint(key)] = value. */
    method ReadPair(a: nat) returns (o: Outcome<()>)
      requires Valid(inp, State()) && a < |heap| && heap[a].OMap? && |heap[a].entries| <= inp.limits.maxItems
      modifies this
      ensures Did(HessianDecoding.ReadPair(inp, old(State()), a), o)
      decreases Remaining(inp, State()), 3, 0
    {
      hide HessianDecoding.ReadValue, KeyText;
      var key :- ReadValue();
      ghost var before := heap;
      var v :- ReadValue();
      ValidValsGrow(before, heap, [key]);
      assert [key][0] == key;
      var text := KeyText(inp, heap, key);
      if text.None? {
        return Diverged;
      }
      heap := PutEntry(heap, a, text.value, v);
      return Done(());
    }

    method ReadMap() returns (o: Outcome<GoVal>)
      requires Valid(inp, State())
      modifies this
      ensures Did(HessianDecoding.ReadMap(inp, old(State())), o)
      decreases Remaining(inp, State()), 5, 0
    {
      hide HessianDecoding.ReadType, HessianDecoding.ReadEntries, HessianDecoding.OpenMap, Valid;
      var typeName :- ReadType();
      var a := |heap|;
      var out :- OpenMap(typeName);
      var _ :- ReadEntries(a);
      return Done(out);
    }

    method OpenMap(typeName: GoString) returns (o: Outcome<GoVal>)
      requires Valid(inp, State())
      modifies this
      ensures Did(HessianDecoding.OpenMap(inp, old(State()), typeName), o)
    {
      hide Safe;
      AllocValid(inp, State(), OMap(map[]));
      var out := GMap(|heap|);
      heap := heap + [OMap(map[])];
      if typeName != [] {
        var wrapper := OMap(TypedEntries(typeName, Ascii("entries"), out));
        AllocValid(inp, State(), wrapper);
        out := GMap(|heap|);
        heap := heap + [wrapper];
      }
      hide Valid;
      var _ :- AddRef(out);
      return Done(out);
    }

    method ReadLenString() returns (o: Outcome<GoString>)
      requires Valid(inp, State())
      modifies this
      ensures Did(HessianDecoding.ReadLenString(inp, old(State())), o)
      decreases Remaining(inp, State()), 2, 0
    {
      hide HessianDecoding.ReadIntValue, HessianDecoding.ReadRunes, Valid;
      var n :- ReadIntValue();
      o := ReadRunes(n);
    }

    method ReadNames(n: nat) returns (o: Outcome<seq<GoString>>)
      requires Valid(inp, State())
      modifies this
      ensures Did(HessianDecoding.ReadNames(inp, old(State()), n, []), o)
    {
      hide HessianDecoding.ReadStringWithTag, HessianDecoding.ReadByte, Valid;
      var names: seq<GoString> := [];
      var i := 0;
      while i < n
        invariant 0 <= i <= n && Valid(inp, State())
        invariant HessianDecoding.ReadNames(inp, old(State()), n, [])
               == HessianDecoding.ReadNames(inp, State(), n - i, names)
      {
        var tag :- ReadByte();
        var name :- ReadStringWithTag(tag);
        names := names + [name];
        i := i + 1;
      }
      return Done(names);
    }

    method ReadObjectDefinition() returns (o: Outcome<()>)
      requires Valid(inp, State())
      modifies this
      ensures Did(HessianDecoding.ReadObjectDefinition(inp, old(State())), o)
      decreases Remaining(inp, State()), 5, 0
    {
      hide HessianDecoding.ReadLenString, HessianDecoding.ReadIntValue, HessianDecoding.ReadNames, HessianDecoding.AddClassDef;
      hide Valid, Grew;
      var typeName :- ReadLenString();
      var fieldCount :- ReadIntValue();
      if !CollectionFits(inp, fieldCount) {
        return Error;
      }
      var names :- ReadNames(fieldCount);
      o := AddClassDef(ClassDef(typeName, names));
    }

    /** The loop over the fields of a definition. */
    method ReadFields(a: nat, names: seq<GoString>) returns (o: Outcome<()>)
      requires Valid(inp, State()) && a < |heap| && heap[a] == OMap(map[]) && |names| <= inp.limits.maxItems
      modifies this
      ensures Did(HessianDecoding.ReadFields(inp, old(State()), a, names), o)
      decreases Remaining(inp, State()), 4, |names|
    {
      hide HessianDecoding.ReadValue, Kept, Valid, Grew;
      var i := 0;
      assert names[0..] == names;
      while i < |names|
        invariant 0 <= i <= |names| && Valid(inp, State())
        invariant a < |heap| && heap[a].OMap? && |heap[a].entries| <= i
        invariant Remaining(inp, State()) <= Remaining(inp, old(State()))
        invariant HessianDecoding.ReadFields(inp, old(State()), a, names)
               == HessianDecoding.ReadFields(inp, State(), a, names[i..])
      {
        ghost var before := State();
        var v :- ReadValue();
        FieldPut(inp, before, State(), a, names[i], v);
        assert names[i..][1..] == names[i + 1..];
        heap := PutEntry(heap, a, names[i], v);
        i := i + 1;
      }
      return Done(());
    }

    method ReadObjectInstance() returns (o: Outcome<GoVal>)
      requires Valid(inp, State())
      modifies this
      ensures Did(HessianDecoding.ReadObjectInstance(inp, old(State())), o)
      decreases Remaining(inp, State()), 5, 0
    {
      hide HessianDecoding.ReadIntValue, HessianDecoding.OpenObject, HessianDecoding.ReadFields;
      var ref :- ReadIntValue();
      if ref < 0 || ref >= |classDefs| {
        return Error;
      }
      var def := classDefs[ref];
      var a := |heap|;
      var out :- OpenObject(def);
      var _ :- ReadFields(a, def.fieldNames);
      return Done(out);
    }

    method OpenObject(def: ClassDef) returns (o: Outcome<GoVal>)
      requires Valid(inp, State())
      modifies this
      ensures Did(HessianDecoding.OpenObject(inp, old(State()), def), o)
    {
      hide Safe;
      AllocValid(inp, State(), OMap(map[]));
      var fields := |heap|;
      heap := heap + [OMap(map[])];
      AllocValid(inp, State(), OMap(ObjectEntries(def, fields)));
      var out := GMap(|heap|);
      heap := heap + [OMap(ObjectEntries(def, fields))];
      hide Valid;
      var _ :- AddRef(out);
      return Done(out);
    }
  }
}

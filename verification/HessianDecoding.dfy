/** What the Hessian reader computes, as functions on its whole state. The
    contracts state, for every byte sequence: the reader stays inside the data,
    moves forward, gives its depth back, and only ever extends its tables. */
module HessianDecoding {
  import opened Options
  import opened Bytes
  import opened GoValues

  datatype ClassDef = ClassDef(typeName: GoString, fieldNames: seq<GoString>)

  datatype Limits = Limits(maxDepth: int, maxItems: int, maxRefs: int, maxScalar: int) {
    /** Non-positive limits mean the defaults. */
    function Ensured(): (l: Limits)
      ensures l.Positive()
    {
      Limits(if maxDepth <= 0 then 128 else maxDepth,
             if maxItems <= 0 then 100_000 else maxItems,
             if maxRefs <= 0 then 100_000 else maxRefs,
             if maxScalar <= 0 then 0x100_0000 else maxScalar)
    }

    predicate Positive() {
      maxDepth > 0 && maxItems > 0 && maxRefs > 0 && maxScalar > 0
    }
  }

  /** What a reader is given: the bytes, its limits, and how fmt.Sprint renders a
      finite value that is not a string. */
  datatype Input = Input(data: seq<byte>, limits: Limits, sprint: Tree -> GoString)

  datatype DState = DState(
    offset: nat, depth: nat, heap: Heap,
    refs: seq<GoVal>, classDefs: seq<ClassDef>, types: seq<GoString>)

  /** An entry of a map whose key is about to be rendered as text: how far the data has
      been read, the heap, and the key. */
  datatype Rendering = Rendering(offset: nat, heap: Heap, key: GoVal)

  /** Diverge: the reader never comes back from rendering a key that contains itself. */
  datatype R<+T> = Ok(v: T, st: DState) | Fail(st: DState) | Diverge(last: Rendering) {
    predicate IsFailure() { !Ok? }
    function PropagateFailure<U>(): R<U>
      requires IsFailure()
    {
      match this
      case Fail(st) => R.Fail(st)
      case Diverge(last) => R.Diverge(last)
    }
    function Extract(): (T, DState)
      requires Ok?
    {
      (v, st)
    }
  }

  // ------------------------------------------------------------------
  // Invariant and monotonicity

  predicate SmallObj(l: Limits, o: Obj) {
    match o
    case OSlice(s) => |s| <= l.maxItems
    case OMap(m) => |m| <= l.maxItems + 3
  }

  ghost predicate Valid(inp: Input, s: DState) {
    && inp.limits.Positive()
    && s.offset <= |inp.data|
    && s.depth <= inp.limits.maxDepth
    && ValidHeap(s.heap)
    && (forall a | 0 <= a < |s.heap| :: SmallObj(inp.limits, s.heap[a]))
    && (forall i | 0 <= i < |s.refs| :: IsContainer(s.refs[i]) && ValidVal(s.heap, s.refs[i]))
    && (forall i | 0 <= i < |s.classDefs| :: |s.classDefs[i].fieldNames| <= inp.limits.maxItems)
    && |s.refs| <= inp.limits.maxRefs
    && |s.classDefs| <= inp.limits.maxRefs
    && |s.types| <= inp.limits.maxRefs
  }

  /** Tables and heap of s are prefixes of those of s', and depth is as it was. */
  ghost predicate Extends(s: DState, s': DState) {
    && s.offset <= s'.offset
    && s'.depth == s.depth
    && Grew(s, s')
  }

  ghost predicate Grew(s: DState, s': DState) {
    && s.heap <= s'.heap
    && s.refs <= s'.refs
    && s.classDefs <= s'.classDefs
    && s.types <= s'.types
  }

  lemma {:induction false} GrewTransitive()
    ensures forall a, b, c {:trigger Grew(a, b), Grew(b, c)} :: Grew(a, b) && Grew(b, c) ==> Grew(a, c)
  {
  }

  ghost predicate Safe<T>(inp: Input, s: DState, r: R<T>) {
    && (!r.Diverge? ==> Valid(inp, r.st) && Extends(s, r.st) && r.st.offset <= |inp.data|)
    && (r.Diverge? ==> Stuck(inp, s, r.last))
  }

  /** From s on the run came to an entry whose key is never rendered. */
  ghost predicate Stuck(inp: Input, s: DState, at: Rendering) {
    && s.offset <= at.offset <= |inp.data|
    && ValidHeap(at.heap) && ValidVal(at.heap, at.key) && KeyText(inp, at.heap, at.key).None?
  }

  /** As Safe, for the loops that fill the map at address a. */
  ghost predicate SafeFilling(inp: Input, s: DState, a: nat, r: R<()>)
  {
    && (!r.Diverge? ==>
      && Valid(inp, r.st)
      && r.st.offset <= |inp.data|
      && a < |s.heap| <= |r.st.heap|
      && r.st.heap[a].OMap?
      && Extends(s.(heap := s.heap[..a]), r.st.(heap := r.st.heap[..a]))
      && (forall i | a < i < |s.heap| :: r.st.heap[i] == s.heap[i]))
    && (r.Diverge? ==> Stuck(inp, s, r.last))
  }

  ghost function Remaining(inp: Input, s: DState): nat {
    if s.offset <= |inp.data| then |inp.data| - s.offset else 0
  }

  // ------------------------------------------------------------------
  // Bytes, integers, text

  ghost function ReadByte(inp: Input, s: DState): (r: R<byte>)
    requires Valid(inp, s)
    ensures Safe(inp, s, r) && !r.Diverge?
    ensures r.Ok? ==> r.st.offset == s.offset + 1
  {
    if s.offset >= |inp.data| then Fail(s)
    else Ok(inp.data[s.offset], s.(offset := s.offset + 1))
  }

  predicate Peeks(inp: Input, s: DState, b: byte) {
    s.offset < |inp.data| && inp.data[s.offset] == b
  }

  ghost function ReadInt32(inp: Input, s: DState): (r: R<int>)
    requires Valid(inp, s)
    ensures Safe(inp, s, r) && !r.Diverge?
    ensures r.Ok? ==> r.st.offset == s.offset + 4 && -TWO_31 <= r.v < TWO_31
  {
    if s.offset + 4 > |inp.data| then Fail(s)
    else Ok(Wrap32(FromBe32(inp.data[s.offset..s.offset + 4])), s.(offset := s.offset + 4))
  }

  ghost function ReadInt64(inp: Input, s: DState): (r: R<int64>)
    requires Valid(inp, s)
    ensures Safe(inp, s, r) && !r.Diverge?
    ensures r.Ok? ==> r.st.offset == s.offset + 8
  {
    if s.offset + 8 > |inp.data| then Fail(s)
    else Ok(Wrap64(FromBe64(inp.data[s.offset..s.offset + 8])), s.(offset := s.offset + 8))
  }

  ghost function ReadUint16(inp: Input, s: DState): (r: R<int>)
    requires Valid(inp, s)
    ensures Safe(inp, s, r) && !r.Diverge?
    ensures r.Ok? ==> r.st.offset == s.offset + 2 && 0 <= r.v < TWO_16
  {
    var (hi, s1) :- ReadByte(inp, s);
    var (lo, s2) :- ReadByte(inp, s1);
    Ok(FromBe16(hi, lo), s2)
  }

  /** The offset after n runes, and whether the data held that many. */
  function SkipRunes(data: seq<byte>, offset: nat, n: nat): (r: (bool, nat))
    requires offset <= |data|
    ensures offset <= r.1 <= |data|
    ensures r.0 && n > 0 ==> r.1 > offset
    decreases n
  {
    if n == 0 then (true, offset)
    else if offset >= |data| then (false, offset)
    else SkipRunes(data, offset + RuneSize(data[offset..]), n - 1)
  }

  ghost function ReadRunes(inp: Input, s: DState, n: int): (r: R<GoString>)
    requires Valid(inp, s)
    ensures Safe(inp, s, r) && !r.Diverge?
    ensures r.Ok? ==> n >= 0 && |r.v| <= inp.limits.maxScalar
  {
    if n < 0 then Fail(s) else
    var (enough, end) := SkipRunes(inp.data, s.offset, n);
    var s1 := s.(offset := end);
    if !enough then Fail(s1)
    else if end - s.offset > inp.limits.maxScalar then Fail(s1)
    else Ok(inp.data[s.offset..end], s1)
  }

  /** Chunks tagged 's' continue; a chunk tagged 'S' or a short one is the last. */
  ghost function ReadChunks(inp: Input, s: DState, tag: byte, out: GoString): (r: R<GoString>)
    requires Valid(inp, s)
    ensures Safe(inp, s, r) && !r.Diverge?
    ensures r.Ok? ==> |r.v| <= inp.limits.maxScalar
    decreases Remaining(inp, s)
  {
    if tag > 0x1f && tag != 'S' as int && tag != 's' as int then Fail(s) else
    var (n, s1) :- if tag <= 0x1f then Ok(tag, s) else ReadUint16(inp, s);
    var (chunk, s2) :- ReadRunes(inp, s1, n);
    if |out| + |chunk| > inp.limits.maxScalar then Fail(s2)
    else if tag != 's' as int then Ok(out + chunk, s2)
    else
      var (next, s3) :- ReadByte(inp, s2);
      ReadChunks(inp, s3, next, out + chunk)
  }

  ghost function ReadBlob(inp: Input, s: DState, tag: byte, out: seq<byte>): (r: R<seq<byte>>)
    requires Valid(inp, s)
    ensures Safe(inp, s, r) && !r.Diverge?
    ensures r.Ok? ==> |r.v| <= inp.limits.maxScalar
    decreases Remaining(inp, s)
  {
    var (n, s1) :- ReadBlobLength(inp, s, tag);
    var (chunk, s2) :- TakeBytes(inp, s1, n, |out|);
    if tag != 'b' as int then Ok(out + chunk, s2)
    else
      var (next, s3) :- ReadByte(inp, s2);
      ReadBlob(inp, s3, next, out + chunk)
  }

  ghost function ReadBlobLength(inp: Input, s: DState, tag: byte): (r: R<int>)
    requires Valid(inp, s)
    ensures Safe(inp, s, r) && !r.Diverge?
    ensures r.Ok? ==> r.v >= 0
  {
    if 0x20 <= tag <= 0x2f then Ok(tag - 0x20, s)
    else if tag == 'B' as int || tag == 'b' as int then ReadUint16(inp, s)
    else Fail(s)
  }

  /** n bytes, after `have` of them were taken before. */
  ghost function TakeBytes(inp: Input, s: DState, n: nat, have: nat): (r: R<seq<byte>>)
    requires Valid(inp, s)
    ensures Safe(inp, s, r) && !r.Diverge?
    ensures r.Ok? ==> |r.v| == n && have + n <= inp.limits.maxScalar
  {
    if s.offset + n > |inp.data| then Fail(s)
    else if have + n > inp.limits.maxScalar then Fail(s)
    else Ok(inp.data[s.offset..s.offset + n], s.(offset := s.offset + n))
  }

  /** The compact integer forms share one shape: tag minus a zero point, then
      zero, one or two more bytes. */
  ghost function ReadCompact(inp: Input, s: DState, high: int, extra: nat): (r: R<int>)
    requires Valid(inp, s) && extra <= 2 && -0x100 <= high < 0x100
    ensures Safe(inp, s, r) && !r.Diverge?
    ensures r.Ok? ==> -TWO_31 <= r.v < TWO_31
  {
    if extra == 0 then Ok(high, s)
    else if extra == 1 then
      var (b, s1) :- ReadByte(inp, s);
      Ok(high * 256 + b, s1)
    else
      var (w, s1) :- ReadUint16(inp, s);
      Ok(high * TWO_16 + w, s1)
  }

  /** The integer a tag introduces; None when the tag is not an integer tag. Both the
      value dispatcher and the string dispatcher read integers by this table. */
  ghost function ReadIntegerForm(inp: Input, s: DState, tag: byte): (o: Option<R<int64>>)
    requires Valid(inp, s)
    ensures o.Some? ==> Safe(inp, s, o.value) && !o.value.Diverge?
  {
    if 0x80 <= tag <= 0xbf then Some(ReadCompact(inp, s, tag - 0x90, 0))
    else if 0xc0 <= tag <= 0xcf then Some(ReadCompact(inp, s, tag - 0xc8, 1))
    else if 0xd0 <= tag <= 0xd7 then Some(ReadCompact(inp, s, tag - 0xd4, 2))
    else if 0xd8 <= tag <= 0xef then Some(ReadCompact(inp, s, tag - 0xe0, 0))
    else if 0xf0 <= tag <= 0xff then Some(ReadCompact(inp, s, tag - 0xf8, 1))
    else if 0x38 <= tag <= 0x3f then Some(ReadCompact(inp, s, tag - 0x3c, 2))
    else if tag == 'I' as int || tag == 0x77 then Some(ReadInt32(inp, s))
    else if tag == 'L' as int then Some(ReadInt64(inp, s))
    else None
  }

  predicate IsStringTag(tag: byte) {
    tag == 'S' as int || tag == 's' as int || tag <= 0x1f
  }

  function Digits(n: nat): GoString {
    if n < 10 then ['0' as int + n] else Digits(n / 10) + ['0' as int + n % 10]
  }

  function Decimal(n: int): GoString {
    if n < 0 then ['-' as int] + Digits(-n) else Digits(n)
  }

  ghost function ReadStringWithTag(inp: Input, s: DState, tag: byte): (r: R<GoString>)
    requires Valid(inp, s)
    ensures Safe(inp, s, r) && !r.Diverge?
  {
    if tag == 'N' as int then Ok([], s)
    else if tag == 'T' as int then Ok(Ascii("true"), s)
    else if tag == 'F' as int then Ok(Ascii("false"), s)
    else match ReadIntegerForm(inp, s, tag)
      case Some(r) =>
        var (n, s1) :- r;
        Ok(Decimal(n), s1)
      case None =>
        if IsStringTag(tag) then ReadChunks(inp, s, tag, []) else Fail(s)
  }

  // ------------------------------------------------------------------
  // Tables

  ghost function AddRef(inp: Input, s: DState, v: GoVal): (r: R<()>)
    requires Valid(inp, s) && IsContainer(v) && ValidVal(s.heap, v)
    ensures Safe(inp, s, r) && !r.Diverge?
  {
    if |s.refs| + 1 > inp.limits.maxRefs then Fail(s)
    else Ok((), s.(refs := s.refs + [v]))
  }

  ghost function AddClassDef(inp: Input, s: DState, def: ClassDef): (r: R<()>)
    requires Valid(inp, s) && |def.fieldNames| <= inp.limits.maxItems
    ensures Safe(inp, s, r) && !r.Diverge?
  {
    if |s.classDefs| + 1 > inp.limits.maxRefs then Fail(s)
    else Ok((), s.(classDefs := s.classDefs + [def]))
  }

  ghost function AddType(inp: Input, s: DState, typeName: GoString): (r: R<()>)
    requires Valid(inp, s)
    ensures Safe(inp, s, r) && !r.Diverge?
  {
    if |s.types| + 1 > inp.limits.maxRefs then Fail(s)
    else Ok((), s.(types := s.types + [typeName]))
  }

  ghost function ReadRef(inp: Input, s: DState, ref: int): (r: R<GoVal>)
    requires Valid(inp, s)
    ensures Safe(inp, s, r) && !r.Diverge?
    ensures r.Ok? ==> 0 <= ref < |s.refs| && r.v == s.refs[ref] && r.st == s
  {
    if ref < 0 || ref >= |s.refs| then Fail(s) else Ok(s.refs[ref], s)
  }

  predicate CollectionFits(inp: Input, n: int) {
    0 <= n <= inp.limits.maxItems
  }

  /** A map key as text: strings as they are, other values as fmt.Sprint renders
      them. None: the value contains itself, and rendering it does not return. */
  function KeyText(inp: Input, h: Heap, key: GoVal): Option<GoString>
    requires ValidHeap(h) && ValidVal(h, key)
  {
    if key.GString? then Some(key.s)
    else match Unfold(h, key, |h|)
      case Some(t) => Some(inp.sprint(t))
      case None => None
  }

  // ------------------------------------------------------------------
  // Values

  ghost predicate SafeVal(inp: Input, s: DState, r: R<GoVal>) {
    && Safe(inp, s, r)
    && (r.Ok? ==> ValidVal(r.st.heap, r.v) && s.offset < r.st.offset)
  }

  /** One value: one more level of nesting on the way in, given back on the way
      out whatever happens in between. */
  ghost function ReadValue(inp: Input, s: DState): (r: R<GoVal>)
    requires Valid(inp, s)
    ensures SafeVal(inp, s, r)
    decreases Remaining(inp, s), 0
  {
    if s.depth + 1 > inp.limits.maxDepth then Fail(s)
    else match ReadByte(inp, s.(depth := s.depth + 1))
      case Fail(s1) => Fail(Leave(s1))
      case Ok(tag, s1) =>
        match ReadTagged(inp, s1, tag)
        case Ok(v, s2) => Ok(v, Leave(s2))
        case Fail(s2) => Fail(Leave(s2))
        case Diverge(last) => Diverge(last)
  }

  function Leave(s: DState): (s': DState)
    requires s.depth > 0
  {
    s.(depth := s.depth - 1)
  }

  ghost function ReadTagged(inp: Input, s: DState, tag: byte): (r: R<GoVal>)
    requires Valid(inp, s)
    ensures Safe(inp, s, r)
    ensures r.Ok? ==> ValidVal(r.st.heap, r.v)
    decreases Remaining(inp, s), 9
  {
    if tag == 'N' as int then Ok(GNil, s)
    else if tag == 'T' as int then Ok(GBool(true), s)
    else if tag == 'F' as int then Ok(GBool(false), s)
    else if IsStringTag(tag) then
      var (t, s1) :- ReadStringWithTag(inp, s, tag);
      Ok(GString(t), s1)
    else if tag == 'B' as int || tag == 'b' as int || 0x20 <= tag <= 0x2f then
      var (raw, s1) :- ReadBlob(inp, s, tag, []);
      Ok(GBytes(raw), s1)
    else if tag == 'V' as int then ReadList(inp, s)
    else if tag == 'v' as int then ReadFixedTypedList(inp, s)
    else if tag == 'M' as int then ReadMap(inp, s)
    else if tag == 'O' as int then
      var (_, s1) :- ReadObjectDefinition(inp, s);
      ReadValue(inp, s1)
    else if tag == 'o' as int then ReadObjectInstance(inp, s)
    else if tag == 'R' as int then
      var (ref, s1) :- ReadInt32(inp, s);
      ReadRef(inp, s1, ref)
    else if tag == 0x4a then
      var (ref, s1) :- ReadByte(inp, s);
      ReadRef(inp, s1, ref)
    else if tag == 0x4b then
      var (ref, s1) :- ReadUint16(inp, s);
      ReadRef(inp, s1, ref)
    else ReadNumber(inp, s, tag)
  }

  function Signed(n: nat, size: nat): int {
    if n < size then n else n - 2 * size
  }

  ghost function ReadNumber(inp: Input, s: DState, tag: byte): (r: R<GoVal>)
    requires Valid(inp, s)
    ensures Safe(inp, s, r) && !r.Diverge?
    ensures r.Ok? ==> r.v.GInt? || r.v.GDouble?
  {
    match ReadIntegerForm(inp, s, tag)
    case Some(r) =>
      var (n, s1) :- r;
      Ok(GInt(n), s1)
    case None =>
      if tag == 0x67 then Ok(GDouble(Whole(0)), s)
      else if tag == 0x68 then Ok(GDouble(Whole(1)), s)
      else if tag == 0x69 then
        var (b, s1) :- ReadByte(inp, s);
        Ok(GDouble(Whole(Signed(b, 0x80))), s1)
      else if tag == 0x6a then
        var (w, s1) :- ReadUint16(inp, s);
        Ok(GDouble(Whole(Signed(w, 0x8000))), s1)
      else if tag == 0x6b then
        var (n, s1) :- ReadInt32(inp, s);
        Ok(GDouble(Single(n % TWO_32)), s1)
      else if tag == 'D' as int then
        var (n, s1) :- ReadInt64(inp, s);
        Ok(GDouble(Bits(n % TWO_64)), s1)
      else if tag == 'd' as int then
        var (n, s1) :- ReadInt64(inp, s);
        Ok(GInt(n), s1)
      else Fail(s)
  }

  ghost function ReadIntValue(inp: Input, s: DState): (r: R<int>)
    requires Valid(inp, s)
    ensures Safe(inp, s, r)
    ensures r.Ok? ==> s.offset < r.st.offset
    decreases Remaining(inp, s), 1
  {
    var (v, s1) :- ReadValue(inp, s);
    if v.GInt? then Ok(v.n, s1) else Fail(s1)
  }

  ghost function ReadType(inp: Input, s: DState): (r: R<GoString>)
    requires Valid(inp, s)
    ensures Safe(inp, s, r)
    decreases Remaining(inp, s), 2
  {
    if Peeks(inp, s, 't' as int) then
      var (n, s1) :- ReadUint16(inp, s.(offset := s.offset + 1));
      var (typeName, s2) :- ReadRunes(inp, s1, n);
      var (_, s3) :- AddType(inp, s2, typeName);
      Ok(typeName, s3)
    else if Peeks(inp, s, 'T' as int) || Peeks(inp, s, 0x75) then
      var (ref, s1) :- ReadIntValue(inp, s.(offset := s.offset + 1));
      if ref < 0 || ref >= |s1.types| then Fail(s1) else Ok(s1.types[ref], s1)
    else Ok([], s)
  }

  /** A list length, or -1 when none is written. */
  ghost function ReadLength(inp: Input, s: DState): (r: R<int>)
    requires Valid(inp, s)
    ensures Safe(inp, s, r) && !r.Diverge?
  {
    if Peeks(inp, s, 0x6e) then ReadByte(inp, s.(offset := s.offset + 1))
    else if Peeks(inp, s, 'l' as int) then ReadInt32(inp, s.(offset := s.offset + 1))
    else Ok(-1, s)
  }

  ghost predicate SafeItems(inp: Input, s: DState, r: R<seq<GoVal>>) {
    && Safe(inp, s, r)
    && (r.Ok? ==> |r.v| <= inp.limits.maxItems && ValidVals(r.st.heap, r.v))
  }

  /** n more items after acc. */
  ghost function ReadItems(inp: Input, s: DState, n: nat, acc: seq<GoVal>): (r: R<seq<GoVal>>)
    requires Valid(inp, s) && |acc| + n <= inp.limits.maxItems
    requires ValidVals(s.heap, acc)
    ensures SafeItems(inp, s, r)
    ensures r.Ok? ==> |r.v| == |acc| + n
    decreases Remaining(inp, s), 3, n
  {
    if n == 0 then Ok(acc, s) else
    var (v, s1) :- ReadValue(inp, s);
    ValidValsGrow(s.heap, s1.heap, acc);
    ReadItems(inp, s1, n - 1, acc + [v])
  }

  /** Items up to the closing 'z'. */
  ghost function ReadItemsToEnd(inp: Input, s: DState, acc: seq<GoVal>): (r: R<seq<GoVal>>)
    requires Valid(inp, s) && |acc| <= inp.limits.maxItems
    requires ValidVals(s.heap, acc)
    ensures SafeItems(inp, s, r)
    decreases Remaining(inp, s), 3
  {
    if s.offset >= |inp.data| then Fail(s)
    else if Peeks(inp, s, 'z' as int) then Ok(acc, s.(offset := s.offset + 1))
    else
      var (v, s1) :- ReadValue(inp, s);
      ValidValsGrow(s.heap, s1.heap, acc);
      if !CollectionFits(inp, |acc| + 1) then Fail(s1)
      else ReadItemsToEnd(inp, s1, acc + [v])
  }

  function SkipEnd(inp: Input, s: DState): (s': DState) {
    if Peeks(inp, s, 'z' as int) then s.(offset := s.offset + 1) else s
  }

  /** The map {"type": typeName, tag: inner} a typed container decodes to. */
  function TypedEntries(typeName: GoString, tag: GoString, inner: GoVal): map<GoString, GoVal> {
    map[Ascii("type") := GString(typeName), tag := inner]
  }

  /** Stores the finished items, wraps them when the list is typed, and only then
      gives the list its reference number. */
  ghost function FinishList(inp: Input, s: DState, typeName: GoString, items: seq<GoVal>, typed: bool): (r: R<GoVal>)
    requires Valid(inp, s) && |items| <= inp.limits.maxItems
    requires ValidVals(s.heap, items)
    ensures Safe(inp, s, r) && !r.Diverge?
    ensures r.Ok? ==> ValidVal(r.st.heap, r.v)
  {
    var a := |s.heap|;
    var s1 := s.(heap := s.heap + [OSlice(items)]);
    AllocValid(inp, s, OSlice(items));
    if !typed then
      var (_, s2) :- AddRef(inp, s1, GSlice(a));
      Ok(GSlice(a), s2)
    else
      var o := OMap(TypedEntries(typeName, Ascii("items"), GSlice(a)));
      AllocValid(inp, s1, o);
      var (_, s2) :- AddRef(inp, s1.(heap := s1.heap + [o]), GMap(a + 1));
      Ok(GMap(a + 1), s2)
  }

  ghost function ReadList(inp: Input, s: DState): (r: R<GoVal>)
    requires Valid(inp, s)
    ensures Safe(inp, s, r)
    ensures r.Ok? ==> ValidVal(r.st.heap, r.v)
    decreases Remaining(inp, s), 5
  {
    hide Valid, Grew;
    GrewTransitive();
    var (typeName, s1) :- ReadType(inp, s);
    var (n, s2) :- ReadLength(inp, s1);
    var (items, s3) :- ReadListBody(inp, s2, n);
    FinishList(inp, s3, typeName, items, typeName != [])
  }

  /** The items of a list that announced n of them, or none when n is negative; an
      announced list may still close with a 'z'. */
  ghost function ReadListBody(inp: Input, s: DState, n: int): (r: R<seq<GoVal>>)
    requires Valid(inp, s)
    ensures SafeItems(inp, s, r)
    decreases Remaining(inp, s), 4
  {
    if n < 0 then ReadItemsToEnd(inp, s, [])
    else if !CollectionFits(inp, n) then Fail(s)
    else
      var (items, s1) :- ReadItems(inp, s, n, []);
      Ok(items, SkipEnd(inp, s1))
  }

  ghost function ReadFixedTypedList(inp: Input, s: DState): (r: R<GoVal>)
    requires Valid(inp, s)
    ensures Safe(inp, s, r)
    ensures r.Ok? ==> ValidVal(r.st.heap, r.v)
    decreases Remaining(inp, s), 5
  {
    hide Valid, Grew;
    GrewTransitive();
    var (ref, s1) :- ReadIntValue(inp, s);
    if ref < 0 || ref >= |s1.types| then Fail(s1) else
    var (n, s2) :- ReadIntValue(inp, s1);
    if !CollectionFits(inp, n) then Fail(s2) else
    var (items, s3) :- ReadItems(inp, s2, n, []);
    FinishList(inp, s3, s3.types[ref], items, true)
  }

  /** Allocates an empty map at |s.heap| and, when typed, its wrapper behind it;
      registers the outer one before any entry is read. */
  ghost function OpenMap(inp: Input, s: DState, typeName: GoString): (r: R<GoVal>)
    requires Valid(inp, s)
    ensures Safe(inp, s, r) && !r.Diverge?
    ensures r.Ok? ==> ValidVal(r.st.heap, r.v) && ValidVal(r.st.heap, GMap(|s.heap|))
                      && r.st.heap[|s.heap|] == OMap(map[])
  {
    var a := |s.heap|;
    AllocValid(inp, s, OMap(map[]));
    var s1 := s.(heap := s.heap + [OMap(map[])]);
    if typeName == [] then
      var (_, s2) :- AddRef(inp, s1, GMap(a));
      Ok(GMap(a), s2)
    else
      var o := OMap(TypedEntries(typeName, Ascii("entries"), GMap(a)));
      AllocValid(inp, s1, o);
      var (_, s2) :- AddRef(inp, s1.(heap := s1.heap + [o]), GMap(a + 1));
      Ok(GMap(a + 1), s2)
  }

  function PutEntry(h: Heap, a: nat, key: GoString, v: GoVal): (h': Heap)
    requires a < |h| && h[a].OMap?
  {
    h[a := OMap(h[a].entries[key := v])]
  }

  /** Key/value pairs up to the closing 'z', put into the map at address a. */
  ghost function ReadEntries(inp: Input, s: DState, a: nat, count: nat): (r: R<()>)
    requires Valid(inp, s) && a < |s.heap| && s.heap[a].OMap?
    requires |s.heap[a].entries| <= count <= inp.limits.maxItems
    ensures SafeFilling(inp, s, a, r)
    decreases Remaining(inp, s), 4
  {
    if s.offset >= |inp.data| then Fail(s)
    else if Peeks(inp, s, 'z' as int) then Ok((), s.(offset := s.offset + 1))
    else match ReadPair(inp, s, a)
      case Fail(s1) => Fail(s1)
      case Diverge(last) => Diverge(last)
      case Ok(_, s1) =>
        if !CollectionFits(inp, count + 1) then Fail(s1)
        else
          FillingStep(inp, s, s, s1, a, ReadEntries(inp, s1, a, count + 1));
          ReadEntries(inp, s1, a, count + 1)
  }

  /** One key and its value, put into the map at address a. */
  ghost function ReadPair(inp: Input, s: DState, a: nat): (r: R<()>)
    requires Valid(inp, s) && a < |s.heap| && s.heap[a].OMap?
    requires |s.heap[a].entries| <= inp.limits.maxItems
    ensures SafeFilling(inp, s, a, r)
    ensures r.Ok? ==> s.offset < r.st.offset && |r.st.heap[a].entries| <= |s.heap[a].entries| + 1
    decreases Remaining(inp, s), 3
  {
    match ReadKeyAndValue(inp, s)
    case Fail(s1) => Fail(s1)
    case Diverge(last) => Diverge(last)
    case Ok(kv, s1) =>
      FillingStep(inp, s, s1, s1, a, StoreEntry(inp, s1, a, kv.0, kv.1));
      StoreEntry(inp, s1, a, kv.0, kv.1)
  }

  ghost function ReadKeyAndValue(inp: Input, s: DState): (r: R<(GoVal, GoVal)>)
    requires Valid(inp, s)
    ensures Safe(inp, s, r)
    ensures r.Ok? ==> s.offset < r.st.offset && ValidVal(r.st.heap, r.v.0) && ValidVal(r.st.heap, r.v.1)
    decreases Remaining(inp, s), 2
  {
    hide Valid, Grew;
    GrewTransitive();
    var (key, s1) :- ReadValue(inp, s);
    var (v, s2) :- ReadValue(inp, s1);
    ValidValGrows(s1, s2, key);
    Ok((key, v), s2)
  }

  /** entries[fmt.Sprint(key)] = v, on the map at address a. */
  ghost function StoreEntry(inp: Input, s: DState, a: nat, key: GoVal, v: GoVal): (r: R<()>)
    requires Valid(inp, s) && a < |s.heap| && s.heap[a].OMap?
    requires |s.heap[a].entries| < inp.limits.maxItems + 3
    requires ValidVal(s.heap, key) && ValidVal(s.heap, v)
    ensures SafeFilling(inp, s, a, r) && !r.Fail?
    ensures r.Ok? ==> |r.st.heap[a].entries| <= |s.heap[a].entries| + 1 && r.st.offset == s.offset
  {
    match KeyText(inp, s.heap, key)
    case None => Diverge(Rendering(s.offset, s.heap, key))
    case Some(text) =>
      PutValid(inp, s, a, text, v);
      PutSize(s.heap, a, text, v);
      Ok((), s.(heap := PutEntry(s.heap, a, text, v)))
  }

  ghost function ReadMap(inp: Input, s: DState): (r: R<GoVal>)
    requires Valid(inp, s)
    ensures Safe(inp, s, r)
    ensures r.Ok? ==> ValidVal(r.st.heap, r.v)
    decreases Remaining(inp, s), 5
  {
    hide Valid, Grew;
    GrewTransitive();
    var (typeName, s1) :- ReadType(inp, s);
    var (out, s2) :- OpenMap(inp, s1, typeName);
    FilledIsSafe(inp, s1, s2, ReadEntries(inp, s2, |s1.heap|, 0), out);
    var (_, s3) :- ReadEntries(inp, s2, |s1.heap|, 0);
    Ok(out, s3)
  }

  ghost function ReadLenString(inp: Input, s: DState): (r: R<GoString>)
    requires Valid(inp, s)
    ensures Safe(inp, s, r)
    decreases Remaining(inp, s), 2
  {
    var (n, s1) :- ReadIntValue(inp, s);
    ReadRunes(inp, s1, n)
  }

  ghost function ReadNames(inp: Input, s: DState, n: nat, acc: seq<GoString>): (r: R<seq<GoString>>)
    requires Valid(inp, s)
    ensures Safe(inp, s, r) && !r.Diverge?
    ensures r.Ok? ==> |r.v| == |acc| + n
    decreases n
  {
    if n == 0 then Ok(acc, s) else
    var (tag, s1) :- ReadByte(inp, s);
    var (name, s2) :- ReadStringWithTag(inp, s1, tag);
    ReadNames(inp, s2, n - 1, acc + [name])
  }

  ghost function ReadObjectDefinition(inp: Input, s: DState): (r: R<()>)
    requires Valid(inp, s)
    ensures Safe(inp, s, r)
    ensures r.Ok? ==> s.offset < r.st.offset
    decreases Remaining(inp, s), 5
  {
    hide Valid, Grew;
    GrewTransitive();
    var (typeName, s1) :- ReadLenString(inp, s);
    var (n, s2) :- ReadIntValue(inp, s1);
    if !CollectionFits(inp, n) then Fail(s2) else
    var (names, s3) :- ReadNames(inp, s2, n, []);
    AddClassDef(inp, s3, ClassDef(typeName, names))
  }

  function ObjectEntries(def: ClassDef, fields: nat): map<GoString, GoVal> {
    map[Ascii("type") := GString(def.typeName),
        Ascii("fields") := GMap(fields),
        Ascii("fieldNames") := GStrings(def.fieldNames)]
  }

  ghost function OpenObject(inp: Input, s: DState, def: ClassDef): (r: R<GoVal>)
    requires Valid(inp, s)
    ensures Safe(inp, s, r) && !r.Diverge?
    ensures r.Ok? ==> ValidVal(r.st.heap, r.v) && ValidVal(r.st.heap, GMap(|s.heap|))
                      && r.st.heap[|s.heap|] == OMap(map[])
  {
    var a := |s.heap|;
    AllocValid(inp, s, OMap(map[]));
    var s1 := s.(heap := s.heap + [OMap(map[])]);
    var o := OMap(ObjectEntries(def, a));
    AllocValid(inp, s1, o);
    var (_, s2) :- AddRef(inp, s1.(heap := s1.heap + [o]), GMap(a + 1));
    Ok(GMap(a + 1), s2)
  }

  /** One value per field name, put into the map at address a. */
  ghost function ReadFields(inp: Input, s: DState, a: nat, names: seq<GoString>): (r: R<()>)
    requires Valid(inp, s) && a < |s.heap| && s.heap[a].OMap?
    requires |s.heap[a].entries| + |names| <= inp.limits.maxItems
    ensures SafeFilling(inp, s, a, r)
    decreases Remaining(inp, s), 4, |names|
  {
    if names == [] then Ok((), s) else
    var (v, s1) :- ReadValue(inp, s);
    PutValid(inp, s1, a, names[0], v);
    ReadFields(inp, s1.(heap := PutEntry(s1.heap, a, names[0], v)), a, names[1..])
  }

  ghost function ReadObjectInstance(inp: Input, s: DState): (r: R<GoVal>)
    requires Valid(inp, s)
    ensures Safe(inp, s, r)
    ensures r.Ok? ==> ValidVal(r.st.heap, r.v)
    decreases Remaining(inp, s), 5
  {
    hide Valid, Grew, SafeFilling, PutEntry;
    GrewTransitive();
    var (ref, s1) :- ReadIntValue(inp, s);
    if ref < 0 || ref >= |s1.classDefs| then Fail(s1) else
    var def := s1.classDefs[ref];
    var (out, s2) :- OpenObject(inp, s1, def);
    FilledIsSafe(inp, s1, s2, ReadFields(inp, s2, |s1.heap|, def.fieldNames), out);
    var (_, s3) :- ReadFields(inp, s2, |s1.heap|, def.fieldNames);
    Ok(out, s3)
  }

  // ------------------------------------------------------------------
  // Heap steps keep the invariant

  lemma {:induction false} AllocValid(inp: Input, s: DState, o: Obj)
    requires Valid(inp, s) && ValidObj(s.heap, o) && SmallObj(inp.limits, o)
    ensures Valid(inp, s.(heap := s.heap + [o]))
  {
    forall a | 0 <= a < |s.heap + [o]| ensures ValidObj(s.heap + [o], (s.heap + [o])[a]) {
      assert a < |s.heap| ==> ValidObj(s.heap, s.heap[a]);
    }
  }

  /** Filling a map allocated after s leaves everything of s as it was. */
  lemma {:induction false} FilledIsSafe(inp: Input, s: DState, s': DState, r: R<()>, out: GoVal)
    requires Extends(s, s') && |s.heap| < |s'.heap| && s'.heap[|s.heap|].OMap?
    requires SafeFilling(inp, s', |s.heap|, r)
    requires ValidVal(s'.heap, out)
    ensures Safe(inp, s, r)
    ensures !r.Diverge? ==> ValidVal(r.st.heap, out)
  {
    if !r.Diverge? {
      var a := |s.heap|;
      assert s'.heap[..a] == s.heap;
      assert s'.heap[..a] <= r.st.heap[..a];
      if IsContainer(out) && out.addr < a {
        assert s'.heap[..a][out.addr] == r.st.heap[..a][out.addr];
      }
    }
  }

  lemma {:induction false} ValidValGrows(s: DState, s': DState, v: GoVal)
    requires Grew(s, s') && ValidVal(s.heap, v)
    ensures ValidVal(s'.heap, v)
  {
    if IsContainer(v) {
      assert s.heap[v.addr] == s'.heap[v.addr];
    }
  }

  /** A value read, an entry stored, and more of the map filled after that. */
  lemma {:induction false} FillingStep(inp: Input, s: DState, s1: DState, s2: DState, a: nat, r: R<()>)
    requires a < |s.heap| && Extends(s, s1) && SafeFilling(inp, s1, a, Ok((), s2)) && SafeFilling(inp, s2, a, r)
    ensures SafeFilling(inp, s, a, r)
  {
    if !r.Diverge? {
      assert s.heap[..a] <= s1.heap[..a] <= s2.heap[..a] <= r.st.heap[..a];
      forall i | a < i < |s.heap| ensures r.st.heap[i] == s.heap[i] {
        assert s1.heap[i] == s.heap[i];
      }
    }
  }

  lemma {:induction false} PutValid(inp: Input, s: DState, a: nat, key: GoString, v: GoVal)
    requires Valid(inp, s) && a < |s.heap| && s.heap[a].OMap? && ValidVal(s.heap, v)
    requires |s.heap[a].entries| < inp.limits.maxItems + 3
    ensures Valid(inp, s.(heap := PutEntry(s.heap, a, key, v)))
  {
    var h' := PutEntry(s.heap, a, key, v);
    forall i | 0 <= i < |h'| ensures ValidObj(h', h'[i]) {
      assert ValidObj(s.heap, s.heap[i]);
    }
  }

  lemma {:induction false} PutSize(h: Heap, a: nat, key: GoString, g: GoVal)
    requires a < |h| && h[a].OMap?
    ensures |PutEntry(h, a, key, g)| == |h| && PutEntry(h, a, key, g)[a].OMap?
    ensures |PutEntry(h, a, key, g)[a].entries| <= |h[a].entries| + 1
    ensures forall i | 0 <= i < |h| && i != a :: PutEntry(h, a, key, g)[i] == h[i]
  {
    var m := h[a].entries;
    assert m[key := g].Keys == m.Keys + {key};
    if key in m {
      assert m.Keys + {key} == m.Keys;
    }
  }

  /** A value read, then put into the map at address a. */
  lemma {:induction false} FieldPut(inp: Input, s: DState, s1: DState, a: nat, name: GoString, v: GoVal)
    requires Valid(inp, s) && a < |s.heap| && s.heap[a].OMap? && |s.heap[a].entries| < inp.limits.maxItems + 3
    requires Valid(inp, s1) && Extends(s, s1) && ValidVal(s1.heap, v)
    ensures a < |s1.heap| && s1.heap[a] == s.heap[a]
    ensures var h := PutEntry(s1.heap, a, name, v);
            && Valid(inp, s1.(heap := h)) && a < |h| && h[a].OMap?
            && |h[a].entries| <= |s.heap[a].entries| + 1
  {
    assert s1.heap[a] == s.heap[a];
    hide Valid;
    PutValid(inp, s1, a, name, v);
    PutSize(s1.heap, a, name, v);
  }
}

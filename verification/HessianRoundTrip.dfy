/** Reading back what the writer wrote. The writer knows only its definition keys,
    the reader only the definitions it has seen; the coupling between the two
    tables is what every nested value has to hand on to the next. */
module HessianRoundTrip {
  import opened Bytes
  import opened GoValues
  import opened HessianDecoding
  import opened HessianEncoding

  // ------------------------------------------------------------------
  // What a value decodes to

  ghost function ListImage(typeName: GoString, items: seq<Tree>): Tree {
    TMap(map[Ascii("type") := TLeaf(GString(typeName)), Ascii("items") := TSlice(items)])
  }

  ghost function MapImage(typeName: GoString, entries: map<GoString, Tree>): Tree {
    if typeName == [] then TMap(entries)
    else TMap(map[Ascii("type") := TLeaf(GString(typeName)), Ascii("entries") := TMap(entries)])
  }

  ghost function ObjectImage(typeName: GoString, names: seq<GoString>, fields: map<GoString, Tree>): Tree {
    TMap(map[Ascii("type") := TLeaf(GString(typeName)), Ascii("fields") := TMap(fields),
             Ascii("fieldNames") := TLeaf(GStrings(names))])
  }

  /** The finite value a reader is to make of v: integers truncated as the writer
      truncates them, containers tagged with the Java type they travelled under. */
  ghost function Image(v: Value): Tree
    decreases v, 1
  {
    match v
    case Nil => TLeaf(GNil)
    case Bool(b) => TLeaf(GBool(b))
    case Str(s) => TLeaf(GString(s))
    case Int(i) => TLeaf(GInt(Wrap32(i)))
    case Long(l) => TLeaf(GInt(l))
    case Uint(u) => TLeaf(GInt(Wrap64(u)))
    case Uint64(u) => TLeaf(GInt(Wrap64(u)))
    case Float(bits) => TLeaf(GDouble(Bits(bits)))
    case Strings(strs) => ListImage(Ascii("[string]"), StringImages(strs))
    case TypedObject(typeName, fields) => ObjectImage(typeName, SortedKeys(fields.Keys), EntryImages(v))
    case LinkedHashMap(m) => MapImage(Ascii("java.util.LinkedHashMap"), EntryImages(v))
    case StringMap(m) => MapImage([], EntryImages(v))
    case ArrayList(items) => ListImage(Ascii("java.util.ArrayList"), Images(items))
    case Slice(items) => ListImage(Ascii("java.util.ArrayList"), Images(items))
    case Unsupported => TLeaf(GNil)
  }

  ghost function Images(vs: seq<Value>): (ts: seq<Tree>)
    ensures |ts| == |vs| && forall i | 0 <= i < |vs| :: ts[i] == Image(vs[i])
    decreases vs, 0
  {
    seq(|vs|, i requires 0 <= i < |vs| => Image(vs[i]))
  }

  ghost function StringImages(strs: seq<GoString>): (ts: seq<Tree>)
    ensures |ts| == |strs| && forall i | 0 <= i < |strs| :: ts[i] == TLeaf(GString(strs[i]))
  {
    seq(|strs|, i requires 0 <= i < |strs| => TLeaf(GString(strs[i])))
  }

  predicate HasEntries(v: Value) {
    v.TypedObject? || v.LinkedHashMap? || v.StringMap?
  }

  function EntriesOf(v: Value): map<GoString, Value>
    requires HasEntries(v)
  {
    if v.TypedObject? then v.fields else v.entries
  }

  ghost function EntryImages(v: Value): (ts: map<GoString, Tree>)
    requires HasEntries(v)
    ensures ts.Keys == EntriesOf(v).Keys && forall k | k in ts :: ts[k] == Image(EntriesOf(v)[k])
    decreases v, 0
  {
    map k | k in EntriesOf(v) :: Image(EntriesOf(v)[k])
  }

  /** A Go int comes back as it was exactly when it fits 32 bits, a uint when it fits the
      positive half of 64; a long always does. */
  lemma {:induction false} IntegersKept(i: int64, u: uint64)
    ensures Image(Int(i)) == TLeaf(GInt(i)) <==> -0x8000_0000 <= i < 0x8000_0000
    ensures Image(Long(i)) == TLeaf(GInt(i))
    ensures Wrap64(u) == u <==> u < 0x8000_0000_0000_0000
  {
  }

  // ------------------------------------------------------------------
  // Definition keys

  predicate NulFree(s: GoString) {
    forall i | 0 <= i < |s| :: s[i] != 0
  }

  /** Names under which definition keys tell definitions apart. */
  predicate CleanNames(typeName: GoString, names: seq<GoString>) {
    NulFree(typeName) && (forall i | 0 <= i < |names| :: NulFree(names[i])) && names != [[]]
  }

  lemma {:induction false} CutAtNul(a: GoString, x: GoString, b: GoString, y: GoString)
    requires NulFree(a) && NulFree(b) && a + [0] + x == b + [0] + y
    ensures a == b && x == y
  {
    FirstNul(a, x);
    FirstNul(b, y);
    var l, r := a + [0] + x, b + [0] + y;
    assert |a| == |b|;
    assert a == l[..|a|] && b == r[..|b|];
    assert x == l[|a| + 1..] && y == r[|b| + 1..];
  }

  lemma {:induction false} FirstNul(a: GoString, x: GoString)
    requires NulFree(a)
    ensures (a + [0] + x)[|a|] == 0
    ensures forall i | 0 <= i < |a| :: (a + [0] + x)[i] != 0
  {
    forall i | 0 <= i < |a| ensures (a + [0] + x)[i] != 0 {
      assert (a + [0] + x)[i] == a[i];
    }
  }

  lemma {:induction false} JoinHasNul(n: seq<GoString>)
    requires |n| > 1
    ensures !NulFree(Join(n, [0]))
  {
    assert Join(n, [0])[|n[0]|] == 0;
  }

  lemma {:induction false} JoinInjective(m: seq<GoString>, n: seq<GoString>)
    requires m != [] && n != [] && Join(m, [0]) == Join(n, [0])
    requires forall i | 0 <= i < |m| :: NulFree(m[i])
    requires forall i | 0 <= i < |n| :: NulFree(n[i])
    ensures m == n
    decreases |m|
  {
    if |m| > 1 { JoinHasNul(m); }
    if |n| > 1 { JoinHasNul(n); }
    if |m| > 1 && |n| > 1 {
      CutAtNul(m[0], Join(m[1..], [0]), n[0], Join(n[1..], [0]));
      JoinInjective(m[1..], n[1..]);
    }
    assert m == [m[0]] + m[1..] && n == [n[0]] + n[1..];
  }

  /** Among NUL-free names two definitions share a key exactly when they are the same
      or differ only in having no field against having one field with an empty name. */
  lemma {:induction false} DefKeyCollisions(t: GoString, m: seq<GoString>, u: GoString, n: seq<GoString>)
    requires NulFree(t) && forall i | 0 <= i < |m| :: NulFree(m[i])
    requires NulFree(u) && forall i | 0 <= i < |n| :: NulFree(n[i])
    ensures ObjectDefKey(t, m) == ObjectDefKey(u, n)
       <==> t == u && (m == n || (m == [] && n == [[]]) || (m == [[]] && n == []))
  {
    if ObjectDefKey(t, m) == ObjectDefKey(u, n) {
      CutAtNul(t, Join(m, [0]), u, Join(n, [0]));
      if m != [] && n != [] {
        JoinInjective(m, n);
      } else if m == [] && n != [] {
        JoinEmpty(n);
      } else if n == [] && m != [] {
        JoinEmpty(m);
      }
    }
  }

  lemma {:induction false} JoinEmpty(n: seq<GoString>)
    requires n != [] && Join(n, [0]) == []
    ensures n == [[]]
  {
    if |n| > 1 { JoinHasNul(n); }
    assert n == [n[0]] + n[1..];
  }

  function DefKey(cd: ClassDef): GoString {
    ObjectDefKey(cd.typeName, cd.fieldNames)
  }

  /** The writer's table and the reader's describe definitions with the same keys. */
  ghost predicate Coupled(defs: Defs, cds: seq<ClassDef>) {
    |defs| == |cds| && forall k | k in defs :: defs[k] < |cds| && DefKey(cds[defs[k]]) == k
  }

  function Known(cds: seq<ClassDef>): set<ClassDef> {
    set d | d in cds
  }

  /** Nothing that is used can be taken for anything else. */
  ghost predicate Apart(cds: seq<ClassDef>, used: set<ClassDef>) {
    ToldApart(Known(cds) + used)
  }

  /** A table that was cds is cds', with nothing new but what was used. */
  ghost predicate Learned(cds: seq<ClassDef>, cds': seq<ClassDef>, used: set<ClassDef>) {
    Known(cds') <= Known(cds) + used
  }

  lemma {:induction false} ApartParts(cds: seq<ClassDef>, a: set<ClassDef>, b: set<ClassDef>)
    requires Apart(cds, a + b)
    ensures Apart(cds, a)
  {
  }

  lemma {:induction false} ApartOn(cds: seq<ClassDef>, cds': seq<ClassDef>, a: set<ClassDef>, b: set<ClassDef>)
    requires Apart(cds, a + b) && Learned(cds, cds', a)
    ensures Apart(cds', b)
  {
    assert Known(cds') + b <= Known(cds) + (a + b);
  }

  lemma {:induction false} LearnedNothing(cds: seq<ClassDef>, used: set<ClassDef>)
    ensures Learned(cds, cds, used)
  {
  }

  lemma {:induction false} LearnedBoth(cds: seq<ClassDef>, cds1: seq<ClassDef>, cds2: seq<ClassDef>, a: set<ClassDef>, b: set<ClassDef>)
    requires Learned(cds, cds1, a) && Learned(cds1, cds2, b)
    ensures Learned(cds, cds2, a + b)
  {
  }

  lemma {:induction false} LearnedFirst(cds: seq<ClassDef>, cds': seq<ClassDef>, def: ClassDef, used: set<ClassDef>)
    requires Learned(cds + [def], cds', used)
    ensures Learned(cds, cds', used + {def})
  {
  }

  lemma {:induction false} LearnedMore(cds: seq<ClassDef>, cds': seq<ClassDef>, def: ClassDef, used: set<ClassDef>)
    requires Learned(cds, cds', used)
    ensures Learned(cds, cds', used + {def})
  {
  }

  lemma {:induction false} ApartFirst(cds: seq<ClassDef>, def: ClassDef, used: set<ClassDef>)
    requires Apart(cds, used + {def})
    ensures Apart(cds, used) && Apart(cds + [def], used) && ToldApart(Known(cds) + {def})
  {
    assert Known(cds + [def]) == Known(cds) + {def};
  }

  /** No two of these definitions share a key. */
  ghost predicate ToldApart(ds: set<ClassDef>) {
    forall d, e | d in ds && e in ds && DefKey(d) == DefKey(e) :: d == e
  }

  /** So it is for names without NUL bytes, a single empty field name aside. */
  lemma {:induction false} CleanToldApart(ds: set<ClassDef>)
    requires forall d | d in ds :: CleanNames(d.typeName, d.fieldNames)
    ensures ToldApart(ds)
  {
    forall d, e | d in ds && e in ds && DefKey(d) == DefKey(e) ensures d == e {
      DefKeyCollisions(d.typeName, d.fieldNames, e.typeName, e.fieldNames);
    }
  }

  lemma {:induction false} CoupledLookup(defs: Defs, cds: seq<ClassDef>, def: ClassDef)
    requires Coupled(defs, cds) && ToldApart(Known(cds) + {def})
    requires DefKey(def) in defs
    ensures defs[DefKey(def)] < |cds| && cds[defs[DefKey(def)]] == def
  {
    assert cds[defs[DefKey(def)]] in Known(cds);
  }

  // ------------------------------------------------------------------
  // What reading a value costs

  /** References and type names added to the tables, levels of nesting used, whether every
      string, name and collection is within the limits, and the definitions used. */
  datatype Need = Need(refs: nat, types: nat, depth: nat, sized: bool, used: set<ClassDef>)

  function Max(a: nat, b: nat): nat {
    if a < b then b else a
  }

  function Both(a: Need, b: Need): Need {
    Need(a.refs + b.refs, a.types + b.types, Max(a.depth, b.depth), a.sized && b.sized, a.used + b.used)
  }

  predicate ScalarFits(l: Limits, s: GoString) {
    |s| <= l.maxScalar
  }

  predicate CountFits(l: Limits, n: nat) {
    n <= l.maxItems && n < TWO_31
  }

  predicate TypeNameFits(l: Limits, s: GoString) {
    RuneCount(s) <= 0xffff && ScalarFits(l, s)
  }

  predicate ObjectNamesFit(l: Limits, typeName: GoString, names: seq<GoString>) {
    && ScalarFits(l, typeName) && RuneCount(typeName) < TWO_31
    && CountFits(l, |names|)
    && forall i | 0 <= i < |names| :: ScalarFits(l, names[i])
  }

  ghost function DefsAfter(v: Value, defs: Defs): Defs {
    match Encode(v, defs)
    case Some(e) => e.defs
    case None => defs
  }

  ghost function NeedOf(l: Limits, v: Value, defs: Defs): (n: Need)
    ensures n.depth >= 1
    decreases !v.Str?, v
  {
    match v
    case Str(s) => Need(0, 0, 1, ScalarFits(l, s), {})
    case Strings(strs) => ListNeed(l, v, Ascii("[string]"), StringsToAny(strs), defs)
    case TypedObject(typeName, fields) =>
      var names := SortedKeys(fields.Keys);
      SortedKeysSorts(fields.Keys);
      ObjectNeed(l, v, typeName, names, ValuesAt(fields, names), defs)
    case LinkedHashMap(m) => MapNeed(l, v, Ascii("java.util.LinkedHashMap"), m, defs)
    case StringMap(m) => MapNeed(l, v, [], m, defs)
    case ArrayList(items) => ListNeed(l, v, Ascii("java.util.ArrayList"), items, defs)
    case Slice(items) => ListNeed(l, v, Ascii("java.util.ArrayList"), items, defs)
    case _ => Need(0, 0, 1, true, {})
  }

  ghost function SeqNeed(l: Limits, ctx: Value, vs: seq<Value>, defs: Defs): Need
    requires Below(ctx, vs)
    decreases true, ctx, |vs|
  {
    if vs == [] then Need(0, 0, 0, true, {})
    else Both(NeedOf(l, vs[0], defs), SeqNeed(l, ctx, vs[1..], DefsAfter(vs[0], defs)))
  }

  ghost function ListNeed(l: Limits, ctx: Value, typeName: GoString, vs: seq<Value>, defs: Defs): Need
    requires Below(ctx, vs)
    decreases true, ctx, |vs| + 1
  {
    var body := SeqNeed(l, ctx, vs, defs);
    Need(body.refs + 1, body.types + 1, body.depth + 1,
         body.sized && TypeNameFits(l, typeName) && CountFits(l, |vs|), body.used)
  }

  ghost function MapNeed(l: Limits, ctx: Value, typeName: GoString, m: map<GoString, Value>, defs: Defs): Need
    requires forall k | k in m :: m[k] < ctx
    decreases true, ctx, |m| + 1
  {
    var body := SeqNeed(l, ctx, ValuesAt(m, KeysOf(m)), defs);
    Need(body.refs + 1, body.types + (if typeName == [] then 0 else 1), body.depth + 1,
         && body.sized && TypeNameFits(l, typeName) && CountFits(l, |m|)
         && (forall k | k in m :: ScalarFits(l, k)),
         body.used)
  }

  /** An object takes one level, two when its definition comes first, and below them
      at least one more for the integers that introduce it. */
  ghost function ObjectNeed(l: Limits, ctx: Value, typeName: GoString, names: seq<GoString>, vs: seq<Value>, defs: Defs): Need
    requires Below(ctx, vs)
    decreases true, ctx, |vs| + 1
  {
    var defs' := match EncodeObjectHead(typeName, names, defs)
      case Some(e) => e.defs
      case None => defs;
    var body := SeqNeed(l, ctx, vs, defs');
    Need(body.refs + 1, body.types,
         Max(body.depth, 1) + (if ObjectDefKey(typeName, names) in defs then 1 else 2),
         body.sized && ObjectNamesFit(l, typeName, names),
         body.used + {ClassDef(typeName, names)})
  }

  /** The reader in state s has room for all of that, and no definition used shares its key
      with another, used or known before. */
  ghost predicate Room(inp: Input, s: DState, n: Need, defs': Defs) {
    && n.sized && Apart(s.classDefs, n.used)
    && s.depth + n.depth <= inp.limits.maxDepth
    && |s.refs| + n.refs <= inp.limits.maxRefs
    && |s.types| + n.types <= inp.limits.maxRefs
    && |defs'| <= inp.limits.maxRefs
    && |defs'| < TWO_31
  }

  // ------------------------------------------------------------------
  // Positions in the data

  /** The data holds these bytes at offset o. */
  ghost predicate At(inp: Input, o: nat, bytes: seq<byte>) {
    o + |bytes| <= |inp.data| && inp.data[o..o + |bytes|] == bytes
  }

  /** No rune can straddle offset o. */
  ghost predicate Cut(inp: Input, o: nat) {
    o <= |inp.data| && (o < |inp.data| ==> inp.data[o] < 0x80)
  }

  lemma {:induction false} AtParts(inp: Input, o: nat, a: seq<byte>, b: seq<byte>)
    requires At(inp, o, a + b)
    ensures At(inp, o, a) && At(inp, o + |a|, b)
    ensures b != [] && b[0] < 0x80 ==> Cut(inp, o + |a|)
  {
    var whole := inp.data[o..o + |a + b|];
    assert whole[..|a|] == a && whole[|a|..] == b;
    assert inp.data[o..o + |a|] == whole[..|a|];
    assert inp.data[o + |a|..o + |a| + |b|] == whole[|a|..];
    if b != [] {
      assert inp.data[o + |a|..][0] == inp.data[o + |a|..o + |a| + |b|][0];
    }
  }

  lemma {:induction false} AtByte(inp: Input, o: nat, b: byte, rest: seq<byte>)
    requires At(inp, o, [b] + rest)
    ensures o < |inp.data| && inp.data[o] == b && At(inp, o + 1, rest)
  {
    AtParts(inp, o, [b], rest);
    assert inp.data[o..o + 1][0] == b;
  }

  // ------------------------------------------------------------------
  // Scalars

  lemma {:induction false} RunesSkipped(inp: Input, o: nat, t: GoString)
    requires At(inp, o, t) && Cut(inp, o + |t|)
    ensures SkipRunes(inp.data, o, RuneCount(t)).0 && SkipRunes(inp.data, o, RuneCount(t)).1 == o + |t|
    decreases |t|
  {
    if t != [] {
      var n := RuneSize(t);
      var rest := inp.data[o + |t|..];
      assert inp.data[o..] == t + rest;
      RuneSizeLocal(t, rest);
      assert t == t[..n] + t[n..];
      AtParts(inp, o, t[..n], t[n..]);
      RunesSkipped(inp, o + n, t[n..]);
    }
  }

  /** Moving within the data keeps the state valid. */
  lemma {:induction false} Moved(inp: Input, s: DState, o: nat)
    requires Valid(inp, s) && o <= |inp.data|
    ensures Valid(inp, s.(offset := o))
  {
  }

  lemma {:induction false} RunesRead(inp: Input, s: DState, t: GoString)
    requires Valid(inp, s) && At(inp, s.offset, t) && Cut(inp, s.offset + |t|)
    requires ScalarFits(inp.limits, t)
    ensures ReadRunes(inp, s, RuneCount(t)) == Ok(t, s.(offset := s.offset + |t|))
  {
    hide Valid, Safe, SkipRunes, RuneCount, Cut;
    RunesSkipped(inp, s.offset, t);
  }

  lemma {:induction false} Uint16Read(inp: Input, s: DState, n: int)
    requires Valid(inp, s) && At(inp, s.offset, Be16(n)) && 0 <= n < TWO_16
    ensures ReadUint16(inp, s) == Ok(n, s.(offset := s.offset + 2))
  {
    var b := inp.data[s.offset..s.offset + 2];
    assert b[0] == inp.data[s.offset] && b[1] == inp.data[s.offset + 1];
  }

  lemma {:induction false} Int32Read(inp: Input, s: DState, n: int)
    requires Valid(inp, s) && At(inp, s.offset, Be32(n))
    ensures ReadInt32(inp, s) == Ok(Wrap32(n), s.(offset := s.offset + 4))
  {
    hide Valid, Safe;
    SignedBe32(n);
  }

  lemma {:induction false} Int64Read(inp: Input, s: DState, n: int)
    requires Valid(inp, s) && At(inp, s.offset, Be64(n))
    ensures ReadInt64(inp, s) == Ok(Wrap64(n), s.(offset := s.offset + 8))
  {
    hide Valid, Safe;
    SignedBe64(n);
  }

  lemma {:induction false} Wrap32Idempotent(n: int)
    ensures Wrap32(Wrap32(n)) == Wrap32(n)
    ensures -TWO_31 <= n < TWO_31 ==> Wrap32(n) == n
  {
  }

  /** Entering a value whose tag is at hand. */
  lemma {:induction false} Enter(inp: Input, s: DState)
    requires Valid(inp, s) && s.depth < inp.limits.maxDepth && s.offset < |inp.data|
    ensures Valid(inp, s.(depth := s.depth + 1, offset := s.offset + 1))
    ensures var r := ReadTagged(inp, s.(depth := s.depth + 1, offset := s.offset + 1), inp.data[s.offset]);
            r.Ok? ==> r.st.depth > 0 && ReadValue(inp, s) == Ok(r.v, Leave(r.st))
  {
    hide ReadTagged;
  }

  /** An integer field of the protocol: one value, one transient level of nesting. */
  lemma {:induction false} IntValueRead(inp: Input, s: DState, n: int)
    requires Valid(inp, s) && At(inp, s.offset, EncodeInt(n)) && s.depth < inp.limits.maxDepth
    ensures ReadIntValue(inp, s) == Ok(Wrap32(n), s.(offset := s.offset + 5))
  {
    hide Valid, Safe, Be32, Wrap32, ReadInt32, ReadValue;
    hide ReadList, ReadFixedTypedList, ReadMap, ReadObjectDefinition, ReadObjectInstance;
    AtByte(inp, s.offset, 'I' as int, Be32(Wrap32(n)));
    Enter(inp, s);
    var s1 := s.(depth := s.depth + 1, offset := s.offset + 1);
    Int32Read(inp, s1, Wrap32(n));
    Wrap32Idempotent(n);
    assert ReadTagged(inp, s1, 'I' as int) == Ok(GInt(Wrap32(n)), s1.(offset := s.offset + 5));
  }

  lemma {:induction false} ShortStringRead(inp: Input, s: DState, t: GoString)
    requires Valid(inp, s) && ScalarFits(inp.limits, t) && RuneCount(t) <= 0x1f
    requires At(inp, s.offset, t) && Cut(inp, s.offset + |t|)
    ensures ReadStringWithTag(inp, s, RuneCount(t)) == Ok(t, s.(offset := s.offset + |t|))
  {
    hide Valid, Safe, RuneCount, ReadRunes, ReadUint16, ReadCompact, ReadInt32, ReadInt64, Cut, At;
    RunesRead(inp, s, t);
    assert [] + t == t;
    assert ReadChunks(inp, s, RuneCount(t), []) == Ok(t, s.(offset := s.offset + |t|));
  }

  lemma {:induction false} LongStringRead(inp: Input, s: DState, t: GoString)
    requires Valid(inp, s) && ScalarFits(inp.limits, t) && RuneCount(t) < TWO_16
    requires At(inp, s.offset, Be16(RuneCount(t)) + t) && Cut(inp, s.offset + 2 + |t|)
    ensures ReadStringWithTag(inp, s, 'S' as int) == Ok(t, s.(offset := s.offset + 2 + |t|))
  {
    hide Valid, Safe, RuneCount, ReadRunes, Be16, ReadUint16, ReadCompact, ReadInt32, ReadInt64, Cut, At;
    var n := RuneCount(t);
    AtParts(inp, s.offset, Be16(n), t);
    AtWithin(inp, s.offset + 2, t);
    Uint16Read(inp, s, n);
    Moved(inp, s, s.offset + 2);
    RunesRead(inp, s.(offset := s.offset + 2), t);
    assert [] + t == t;
    assert ReadChunks(inp, s, 'S' as int, []) == Ok(t, s.(offset := s.offset + 2 + |t|));
  }

  lemma {:induction false} AtWithin(inp: Input, o: nat, bytes: seq<byte>)
    requires At(inp, o, bytes)
    ensures o + |bytes| <= |inp.data|
  {
  }

  /** A string as the reader sees it: a tag, then what the tag promised. */
  lemma {:induction false} StringRead(inp: Input, s: DState, t: GoString)
    requires Valid(inp, s) && EncodeString(t).Some? && ScalarFits(inp.limits, t)
    requires At(inp, s.offset, EncodeString(t).value)
    requires Cut(inp, s.offset + |EncodeString(t).value|)
    ensures s.offset < |inp.data| && IsStringTag(inp.data[s.offset])
    ensures Valid(inp, s.(offset := s.offset + 1))
    ensures ReadStringWithTag(inp, s.(offset := s.offset + 1), inp.data[s.offset])
         == Ok(t, s.(offset := s.offset + |EncodeString(t).value|))
  {
    hide Valid, Safe, RuneCount, ReadStringWithTag, Be16, Cut, At;
    var n := RuneCount(t);
    var s1 := s.(offset := s.offset + 1);
    if n <= 0x1f {
      assert EncodeString(t).value == [n] + t;
      AtByte(inp, s.offset, n, t);
      Moved(inp, s, s.offset + 1);
      ShortStringRead(inp, s1, t);
    } else {
      assert EncodeString(t).value == ['S' as int] + (Be16(n) + t);
      AtByte(inp, s.offset, 'S' as int, Be16(n) + t);
      Moved(inp, s, s.offset + 1);
      LongStringRead(inp, s1, t);
    }
  }

  lemma {:induction false} TypeRead(inp: Input, s: DState, t: GoString)
    requires Valid(inp, s) && At(inp, s.offset, EncodeType(t)) && Cut(inp, s.offset + |EncodeType(t)|)
    requires TypeNameFits(inp.limits, t) && |s.types| < inp.limits.maxRefs
    ensures ReadType(inp, s) == Ok(t, s.(offset := s.offset + |EncodeType(t)|, types := s.types + [t]))
  {
    hide Valid, Safe, RuneCount, ReadRunes, Be16, ReadUint16, ReadIntValue, Cut;
    var n := RuneCount(t);
    assert EncodeType(t) == ['t' as int] + (Be16(n) + t);
    AtByte(inp, s.offset, 't' as int, Be16(n) + t);
    AtParts(inp, s.offset + 1, Be16(n), t);
    Moved(inp, s, s.offset + 1);
    Moved(inp, s, s.offset + 3);
    Moved(inp, s, s.offset + 3 + |t|);
    Uint16Read(inp, s.(offset := s.offset + 1), n);
    RunesRead(inp, s.(offset := s.offset + 3), t);
  }

  lemma {:induction false} LengthRead(inp: Input, s: DState, n: nat)
    requires Valid(inp, s) && At(inp, s.offset, EncodeLength(n)) && n < TWO_31
    ensures ReadLength(inp, s) == Ok(n, s.(offset := s.offset + |EncodeLength(n)|))
  {
    hide Valid, Safe, Be32, ReadInt32, Wrap32;
    if n <= 0xff {
      AtByte(inp, s.offset, 0x6e, [n]);
      AtByte(inp, s.offset + 1, n, []);
    } else {
      AtByte(inp, s.offset, 'l' as int, Be32(n));
      Moved(inp, s, s.offset + 1);
      Int32Read(inp, s.(offset := s.offset + 1), n);
      Wrap32Idempotent(n);
    }
  }

  lemma {:induction false} LenStringRead(inp: Input, s: DState, t: GoString)
    requires Valid(inp, s) && At(inp, s.offset, EncodeLenString(t)) && Cut(inp, s.offset + |EncodeLenString(t)|)
    requires RuneCount(t) < TWO_31 && ScalarFits(inp.limits, t) && s.depth < inp.limits.maxDepth
    ensures ReadLenString(inp, s) == Ok(t, s.(offset := s.offset + |EncodeLenString(t)|))
  {
    hide Valid, Safe, RuneCount, EncodeInt, ReadIntValue, ReadRunes, Cut, Wrap32;
    AtParts(inp, s.offset, EncodeInt(RuneCount(t)), t);
    IntValueRead(inp, s, RuneCount(t));
    Wrap32Idempotent(RuneCount(t));
    Moved(inp, s, s.offset + 5);
    RunesRead(inp, s.(offset := s.offset + 5), t);
  }

  /** Whatever the writer writes starts with an ASCII byte, so it ends the string
      before it. */
  lemma {:induction false} StringStartsAscii(t: GoString)
    requires EncodeString(t).Some?
    ensures EncodeString(t).value != [] && EncodeString(t).value[0] < 0x80
    ensures EncodeString(t).value[0] != 'z' as int && EncodeString(t).value[0] != 't' as int
    ensures EncodeString(t).value[0] != 'T' as int && EncodeString(t).value[0] != 0x75
  {
  }

  lemma {:induction false} EncodingStartsAscii(v: Value, defs: Defs)
    requires Encode(v, defs).Some?
    ensures Encode(v, defs).value.bytes != [] && Encode(v, defs).value.bytes[0] < 0x80
    ensures Encode(v, defs).value.bytes[0] != 'z' as int
  {
    if v.Str? { StringStartsAscii(v.s); }
  }

  lemma {:induction false} NamesRead(inp: Input, s: DState, names: seq<GoString>, acc: seq<GoString>, after: seq<byte>)
    requires Valid(inp, s) && EncodeNames(names).Some?
    requires forall i | 0 <= i < |names| :: ScalarFits(inp.limits, names[i])
    requires At(inp, s.offset, EncodeNames(names).value + after) && after != [] && after[0] < 0x80
    ensures ReadNames(inp, s, |names|, acc)
         == Ok(acc + names, s.(offset := s.offset + |EncodeNames(names).value|))
    decreases |names|
  {
    hide Valid, Safe, RuneCount, ReadStringWithTag, EncodeString;
    if names == [] {
      assert acc + names == acc;
    } else {
      var a, b := EncodeString(names[0]).value, EncodeNames(names[1..]).value;
      assert EncodeNames(names).value + after == a + (b + after);
      AtParts(inp, s.offset, a, b + after);
      if names[1..] != [] {
        StringStartsAscii(names[1]);
      }
      StringRead(inp, s, names[0]);
      Moved(inp, s, s.offset + |a|);
      NamesRead(inp, s.(offset := s.offset + |a|), names[1..], acc + [names[0]], after);
      assert acc + [names[0]] + names[1..] == acc + names;
    }
  }
}

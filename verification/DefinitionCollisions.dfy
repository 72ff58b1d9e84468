/** Different object definitions with one key: which they are, and what the reader makes of
    an object that is written under the definition of another. */
module DefinitionCollisions {
  import opened Options
  import opened Bytes
  import opened GoValues
  import opened HessianDecoding
  import opened HessianEncoding
  import opened HessianRoundTrip
  import opened HessianReadBack
  import opened DecoderEnds

  function Fieldless(t: GoString): Value {
    TypedObject(t, map[])
  }

  function Nameless(t: GoString): Value {
    TypedObject(t, map[[] := Nil])
  }

  lemma {:induction false} KeysOfBoth()
    ensures SortedKeys({}) == [] && SortedKeys({[]}) == [[]]
  {
    SortedKeysSorts({});
    SortedKeysSorts({[]});
    hide SortedKeys;
    var ks := SortedKeys({[]});
    assert ks[0] in {[]};
  }

  lemma {:induction false} FieldlessBytes(t: GoString, defs: Defs)
    requires ObjectDefKey(t, []) in defs
    ensures ObjectDefKey(t, [[]]) == ObjectDefKey(t, [])
    ensures Encode(Fieldless(t), defs).Some? && Encode(Nameless(t), defs).Some?
    ensures Encode(Nameless(t), defs).value.bytes == Encode(Fieldless(t), defs).value.bytes + ['N' as int]
    ensures Encode(Fieldless(t), defs).value.defs == defs
  {
    KeysOfBoth();
    hide SortedKeys, EncodeInt;
    var a, b := Fieldless(t), Nameless(t);
    assert a.fields.Keys == {} && b.fields.Keys == {[]};
    assert ValuesAt(b.fields, [[]]) == [Nil];
    assert b.fields[[]] == Nil && [Nil][1..] == [];
    assert EncodeSeq(b, [], defs) == Some(Encoded([], defs));
    assert Encode(Nil, defs) == Some(Encoded(['N' as int], defs));
    assert ['N' as int] + [] == ['N' as int];
    assert EncodeSeq(b, [Nil], defs) == Some(Encoded(['N' as int], defs));
    assert EncodeObjectHead(t, [], defs) == EncodeObjectHead(t, [[]], defs);
    assert EncodeSeq(a, [], defs) == Some(Encoded([], defs));
    assert ValuesAt(a.fields, []) == [];
  }

  lemma {:induction false} ImagesDiffer(t: GoString)
    ensures Image(Fieldless(t)) != Image(Nameless(t))
  {
    var a, b := EntryImages(Fieldless(t)), EntryImages(Nameless(t));
    assert [] in b && [] !in a;
    var m, n := Image(Fieldless(t)).entries, Image(Nameless(t)).entries;
    assert m[Ascii("fields")] == TMap(a) && n[Ascii("fields")] == TMap(b);
  }

  /** Once the class is defined without fields, an object of it with the nameless field is
      written under that definition, and what is read is the object without fields. */
  lemma {:induction false} NamelessMisread(inp: Input, s: DState, t: GoString, defs: Defs)
    requires ObjectDefKey(t, []) in defs
    requires var a, b := Fieldless(t), Nameless(t);
             Encode(b, defs).Some? && At(inp, s.offset, Encode(b, defs).value.bytes)
    requires Valid(inp, s) && Coupled(defs, s.classDefs) && Room(inp, s, NeedOf(inp.limits, Fieldless(t), defs), defs)
    ensures ReadValue(inp, s).Ok?
    ensures var r := ReadValue(inp, s);
            Rep(r.st.heap, |s.heap|, |r.st.heap|, r.v, Image(Fieldless(t))) && Image(Fieldless(t)) != Image(Nameless(t))
            && r.st.offset < s.offset + |Encode(Nameless(t), defs).value.bytes|
  {
    hide Encode, ReadValue, Valid, Image, NeedOf, Coupled, Rep, Room, At, Cut, ObjectDefKey, Fieldless, Nameless;
    FieldlessBytes(t, defs);
    ImagesDiffer(t);
    var a := Encode(Fieldless(t), defs).value;
    AtFront(inp, s.offset, a.bytes, Encode(Nameless(t), defs).value.bytes);
    ValueReadsBack(inp, s, Fieldless(t), defs, a, NeedOf(inp.limits, Fieldless(t), defs));
  }

  lemma {:induction false} AtFront(inp: Input, o: nat, front: seq<byte>, whole: seq<byte>)
    requires At(inp, o, whole) && whole == front + ['N' as int]
    ensures At(inp, o, front) && Cut(inp, o + |front|)
  {
    assert whole[..|front|] == front && whole[|front|] == 'N' as int;
    assert inp.data[o..o + |front|] == inp.data[o..o + |whole|][..|front|];
    assert inp.data[o + |front|] == inp.data[o..o + |whole|][|front|];
  }

  /** A NUL byte inside a name moves the border between names: a field "a NUL b" and the two
      fields a and b have one key, and so have a class name with a NUL byte and a shorter
      one with one field more. Once one of them is known the other is written under its number. */
  lemma {:induction false} NulCollides(t: GoString, a: GoString, b: GoString, defs: Defs)
    ensures ObjectDefKey(t, [a + [0] + b]) == ObjectDefKey(t, [a, b])
    ensures ObjectDefKey(t + [0] + a, [b]) == ObjectDefKey(t, [a, b])
    ensures ObjectDefKey(t, [a, b]) in defs ==>
              && EncodeObjectHead(t, [a + [0] + b], defs) == EncodeObjectHead(t, [a, b], defs)
              && EncodeObjectHead(t + [0] + a, [b], defs) == EncodeObjectHead(t, [a, b], defs)
  {
    hide EncodeInt;
    assert [a, b][1..] == [b];
    assert Join([a, b], [0]) == a + [0] + b;
    assert t + [0] + a + [0] + b == t + [0] + (a + [0] + b);
  }

  // ------------------------------------------------------------------
  // What a shared key costs

  /** The wrapper of a decoded object keeps the definition it was read by. */
  lemma {:induction false} WrapperKeepsDefinition(inp: Input, s: DState)
    requires Valid(inp, s) && ReadObjectInstance(inp, s).Ok?
    ensures var ref := ReadIntValue(inp, s);
            && ref.Ok? && 0 <= ref.v < |ref.st.classDefs|
            && var r := ReadObjectInstance(inp, s);
               && r.v.GMap? && r.v.addr < |r.st.heap|
               && r.st.heap[r.v.addr] == OMap(ObjectEntries(ref.st.classDefs[ref.v], |ref.st.heap|))
  {
    hide ReadIntValue, ReadFields, OpenObject, Valid, Grew;
    var s1 := ReadIntValue(inp, s).st;
    var def := s1.classDefs[ReadIntValue(inp, s).v];
    DefinitionSmall(inp, s1, ReadIntValue(inp, s).v);
    ObjectOpened(inp, s1, def);
    var s2 := OpenObject(inp, s1, def).st;
    WrapperUntouched(inp, s2, |s1.heap|, ReadFields(inp, s2, |s1.heap|, def.fieldNames));
  }

  lemma {:induction false} WrapperUntouched(inp: Input, s: DState, a: nat, r: R<()>)
    requires SafeFilling(inp, s, a, r) && r.Ok? && a + 1 < |s.heap|
    ensures a + 1 < |r.st.heap| && r.st.heap[a + 1] == s.heap[a + 1]
  {
  }

  /** An object's image shows the class and the field names of one definition only. */
  lemma {:induction false} ImageShowsDefinition(h: Heap, lo: nat, hi: nat, v: GoVal, def: ClassDef, fields: nat, typeName: GoString, names: seq<GoString>, ts: map<GoString, Tree>)
    requires v.GMap? && v.addr < |h| && h[v.addr] == OMap(ObjectEntries(def, fields))
    requires Rep(h, lo, hi, v, ObjectImage(typeName, names, ts))
    ensures def == ClassDef(typeName, names)
  {
    ObjectParts(def, fields, typeName, names, ts);
    hide ObjectImage, ObjectEntries;
    LeafAt(h, lo, hi, v, ObjectImage(typeName, names, ts).entries, Ascii("type"), GString(typeName));
    LeafAt(h, lo, hi, v, ObjectImage(typeName, names, ts).entries, Ascii("fieldNames"), GStrings(names));
  }

  lemma {:induction false} ObjectParts(def: ClassDef, fields: nat, typeName: GoString, names: seq<GoString>, ts: map<GoString, Tree>)
    ensures var m := ObjectEntries(def, fields);
            && Ascii("type") in m && m[Ascii("type")] == GString(def.typeName)
            && Ascii("fieldNames") in m && m[Ascii("fieldNames")] == GStrings(def.fieldNames)
    ensures var t := ObjectImage(typeName, names, ts);
            && t.TMap?
            && Ascii("type") in t.entries && t.entries[Ascii("type")] == TLeaf(GString(typeName))
            && Ascii("fieldNames") in t.entries && t.entries[Ascii("fieldNames")] == TLeaf(GStrings(names))
  {
    assert |Ascii("type")| == 4 && |Ascii("fields")| == 6 && |Ascii("fieldNames")| == 10;
  }

  lemma {:induction false} LeafAt(h: Heap, lo: nat, hi: nat, v: GoVal, ts: map<GoString, Tree>, k: GoString, leaf: GoVal)
    requires Rep(h, lo, hi, v, TMap(ts)) && k in ts && ts[k] == TLeaf(leaf)
    ensures k in h[v.addr].entries && h[v.addr].entries[k] == leaf
  {
    assert Rep(h, lo, hi, h[v.addr].entries[k], ts[k]);
  }

  /** Too deep for the number that introduces an object. */
  lemma {:induction false} NoRoomForNumber(inp: Input, s: DState)
    requires Valid(inp, s) && s.depth == inp.limits.maxDepth
    ensures ReadObjectInstance(inp, s).Fail?
  {
    hide Valid, OpenObject, ReadFields;
    assert ReadValue(inp, s) == R.Fail(s);
    assert ReadIntValue(inp, s) == R.Fail(s);
  }

  lemma {:induction false} InstanceRead(inp: Input, s: DState)
    requires Valid(inp, s) && Peeks(inp, s, 'o' as int) && ReadValue(inp, s).Ok?
    ensures s.depth < inp.limits.maxDepth && Valid(inp, s.(depth := s.depth + 1, offset := s.offset + 1))
    ensures var r := ReadObjectInstance(inp, s.(depth := s.depth + 1, offset := s.offset + 1));
            r.Ok? && ReadValue(inp, s) == Ok(r.v, Leave(r.st))
  {
    hide ReadObjectInstance, ReadTagged;
    Enter(inp, s);
    InstanceTagged(inp, s.(depth := s.depth + 1, offset := s.offset + 1));
  }

  /** An object written under the number of a definition that is not its own is never read as
      what it is: the round trip needs its definitions told apart. */
  lemma {:induction false} OtherDefinitionMisread(inp: Input, s: DState, typeName: GoString, names: seq<GoString>, defs: Defs, ts: map<GoString, Tree>, lo: nat, hi: nat)
    requires Valid(inp, s) && Coupled(defs, s.classDefs) && |defs| < TWO_31
    requires var key := ObjectDefKey(typeName, names); key in defs && s.classDefs[defs[key]] != ClassDef(typeName, names)
    requires At(inp, s.offset, EncodeObjectHead(typeName, names, defs).value.bytes)
    requires ReadValue(inp, s).Ok?
    ensures var r := ReadValue(inp, s); !Rep(r.st.heap, lo, hi, r.v, ObjectImage(typeName, names, ts))
  {
    hide Valid, ReadValue, EncodeInt, ObjectDefKey, Rep, At, ObjectImage;
    var ref := defs[ObjectDefKey(typeName, names)];
    assert ['o' as int] + (EncodeInt(ref) + []) == ['o' as int] + EncodeInt(ref);
    AtByte(inp, s.offset, 'o' as int, EncodeInt(ref) + []);
    InstanceRead(inp, s);
    if s.depth + 1 == inp.limits.maxDepth {
      NoRoomForNumber(inp, s.(depth := s.depth + 1, offset := s.offset + 1));
    } else {
      InstanceHeadRead(inp, s, ref, []);
      var s1 := s.(depth := s.depth + 1, offset := s.offset + 1);
      WrapperKeepsDefinition(inp, s1);
      var r := ReadObjectInstance(inp, s1);
      if Rep(r.st.heap, lo, hi, r.v, ObjectImage(typeName, names, ts)) {
        ImageShowsDefinition(r.st.heap, lo, hi, r.v, s.classDefs[ref], |s.heap|, typeName, names, ts);
      }
    }
  }
}

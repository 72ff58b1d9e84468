/** The Hessian writer as the program keeps it: a growing buffer and a table of
    object definitions, updated in place. Every method is proved to append exactly
    the bytes its specification function gives. */
module HessianWriter {
  import opened Options
  import opened Bytes
  import opened HessianEncoding

  // ------------------------------------------------------------------
  // Loops write from the front; the specification functions recurse from it too

  /** e with bytes b in front. */
  ghost function After(b: seq<byte>, e: Option<Encoded>): Option<Encoded> {
    match e
    case None => None
    case Some(x) => Some(Encoded(b + x.bytes, x.defs))
  }

  lemma {:induction false} AfterNothing(e: Option<Encoded>)
    ensures After([], e) == e
  {
    if e.Some? {
      assert [] + e.value.bytes == e.value.bytes;
    }
  }

  lemma {:induction false} AfterAfter(a: seq<byte>, b: seq<byte>, e: Option<Encoded>)
    ensures After(a, After(b, e)) == After(a + b, e)
  {
    if e.Some? {
      assert a + (b + e.value.bytes) == a + b + e.value.bytes;
    }
  }

  lemma {:induction false} NamesAppend(names: seq<GoString>, name: GoString)
    requires EncodeNames(names).Some?
    ensures EncodeNames(names + [name]) == match EncodeString(name)
              case Some(b) => Some(EncodeNames(names).value + b)
              case None => None
    decreases |names|
  {
    hide EncodeString;
    var all := names + [name];
    if names == [] {
      assert all == [name] && all[1..] == [];
      if EncodeString(name).Some? {
        assert EncodeString(name).value + [] == [] + EncodeString(name).value;
      }
    } else {
      assert all[0] == names[0] && all[1..] == names[1..] + [name];
      NamesAppend(names[1..], name);
      if EncodeString(name).Some? {
        var a, rest, b := EncodeString(names[0]).value, EncodeNames(names[1..]).value, EncodeString(name).value;
        assert a + (rest + b) == a + rest + b;
      }
    }
  }

  /** One name too long spoils the whole definition. */
  lemma {:induction false} NamesRefused(names: seq<GoString>, i: nat)
    requires i < |names| && EncodeString(names[i]).None?
    ensures EncodeNames(names).None?
    decreases i
  {
    hide EncodeString;
    if i > 0 {
      assert names[1..][i - 1] == names[i];
      NamesRefused(names[1..], i - 1);
    }
  }

  lemma {:induction false} InsertKey(ks: seq<GoString>, i: nat, k: GoString, keys: set<GoString>)
    requires i <= |ks| && Ascending(ks) && Enumerates(ks, keys) && k !in keys
    requires forall j | i <= j < |ks| :: Less(k, ks[j])
    requires i > 0 ==> !Less(k, ks[i - 1])
    ensures Ascending(ks[..i] + [k] + ks[i..]) && Enumerates(ks[..i] + [k] + ks[i..], keys + {k})
  {
    var r := ks[..i] + [k] + ks[i..];
    if i > 0 {
      LessTotal(k, ks[i - 1]);
      assert ks[i - 1] in keys;
      forall j | 0 <= j < i ensures Less(ks[j], k) {
        if j < i - 1 { LessTransitive(ks[j], ks[i - 1], k); }
      }
    }
    forall a, b | 0 <= a < b < |r| ensures Less(r[a], r[b]) && r[a] != r[b] {
      hide Less;
      if a < i && b > i { assert r[a] == ks[a] && r[b] == ks[b - 1]; }
    }
  }

  predicate HasContents(v: Value) {
    v.TypedObject? || v.LinkedHashMap? || v.StringMap? || v.ArrayList? || v.Slice?
  }

  class Writer {
    var buf: seq<byte>
    var objectDefs: Defs

    constructor ()
      ensures buf == [] && objectDefs == map[]
    {
      buf, objectDefs := [], map[];
    }

    /** What writing e on top of buf0 leaves behind. A refused value leaves a longer
        buffer, which the caller throws away. */
    ghost predicate Wrote(buf0: seq<byte>, e: Option<Encoded>, ok: bool)
      reads this
    {
      && buf0 <= buf
      && ok == e.Some?
      && (ok ==> buf == buf0 + e.value.bytes && objectDefs == e.value.defs)
    }

    /** Byte-level writes cannot fail and leave the definitions alone. */
    method WriteUint16(n: int)
      modifies this`buf
      ensures buf == old(buf) + Be16(n)
    {
      buf := buf + [n / 256 % 256, n % 256];
    }

    method WriteUint32(n: int)
      modifies this`buf
      ensures buf == old(buf) + Be32(n)
    {
      buf := buf + [n / 256 / 256 / 256 % 256, n / 256 / 256 % 256, n / 256 % 256, n % 256];
    }

    method WriteUint64(n: int)
      modifies this`buf
      ensures buf == old(buf) + Be64(n)
    {
      WriteUint32(n / 256 / 256 / 256 / 256);
      buf := buf + [n / 256 / 256 / 256 % 256, n / 256 / 256 % 256, n / 256 % 256, n % 256];
    }

    method WriteInt(n: int)
      modifies this`buf
      ensures buf == old(buf) + EncodeInt(n)
    {
      buf := buf + ['I' as int];
      WriteUint32(Wrap32(n));
    }

    method WriteLong(n: int)
      modifies this`buf
      ensures buf == old(buf) + EncodeLong(n)
    {
      buf := buf + ['L' as int];
      WriteUint64(n);
    }

    method WriteDouble(bits: uint64)
      modifies this`buf
      ensures buf == old(buf) + (['D' as int] + Be64(bits))
    {
      buf := buf + ['D' as int];
      WriteUint64(bits);
    }

    method WriteLength(n: nat)
      modifies this`buf
      ensures buf == old(buf) + EncodeLength(n)
    {
      if n <= 0xff {
        buf := buf + [0x6e, n];
      } else {
        buf := buf + ['l' as int];
        WriteUint32(n);
      }
    }

    method WriteType(typeName: GoString)
      modifies this`buf
      ensures buf == old(buf) + EncodeType(typeName)
    {
      buf := buf + ['t' as int];
      WriteUint16(RuneCount(typeName));
      buf := buf + typeName;
    }

    method WriteLenString(s: GoString)
      modifies this`buf
      ensures buf == old(buf) + EncodeLenString(s)
    {
      WriteInt(RuneCount(s));
      buf := buf + s;
    }

    method WriteString(s: GoString) returns (ok: bool)
      modifies this`buf
      ensures ok == EncodeString(s).Some?
      ensures buf == if ok then old(buf) + EncodeString(s).value else old(buf)
    {
      if s == [] {
        buf := buf + [0];
        return true;
      }
      var length := RuneCount(s);
      if length <= 0x1f {
        buf := buf + [length];
        buf := buf + s;
        return true;
      }
      if length > 0xffff {
        return false;
      }
      buf := buf + ['S' as int];
      WriteUint16(length);
      buf := buf + s;
      return true;
    }

    /** sort.Strings over the keys a map yields in whatever order it likes. */
    static method SortKeys(keys: set<GoString>) returns (ks: seq<GoString>)
      ensures ks == SortedKeys(keys)
    {
      ks := [];
      var rest := keys;
      while rest != {}
        invariant rest <= keys
        invariant Ascending(ks) && Enumerates(ks, keys - rest)
        decreases |rest|
      {
        var k :| k in rest;
        var i := |ks|;
        while i > 0 && Less(k, ks[i - 1])
          invariant 0 <= i <= |ks|
          invariant forall j | i <= j < |ks| :: Less(k, ks[j])
        {
          i := i - 1;
        }
        InsertKey(ks, i, k, keys - rest);
        assert keys - (rest - {k}) == keys - rest + {k};
        rest := rest - {k};
        ks := ks[..i] + [k] + ks[i..];
      }
      assert keys - rest == keys;
      AscendingUnique(ks, keys);
    }

    static method OrderKeys(keys: set<GoString>) returns (ks: seq<GoString>)
      ensures ks == OrderedMapKeys(keys)
    {
      if TYPE_KEY in keys {
        ks := SortKeys(keys - {TYPE_KEY});
        ks := [TYPE_KEY] + ks;
      } else {
        ks := SortKeys(keys);
      }
    }

    method WriteValue(v: Value) returns (ok: bool)
      modifies this
      ensures Wrote(old(buf), Encode(v, old(objectDefs)), ok)
      decreases !v.Str?, v, 1, 0
    {
      hide EncodeList, EncodeMap, EncodeObject, EncodeString, EncodeInt, EncodeLong, Be64;
      match v
      case Strings(strs) => ok := WriteTypedList(Ascii("[string]"), StringsToAny(strs), v);
      case TypedObject(_, _) => ok := WriteTypedObject(v);
      case LinkedHashMap(m) => ok := WriteMap(Ascii("java.util.LinkedHashMap"), m, v);
      case StringMap(m) => ok := WriteMap([], m, v);
      case ArrayList(items) => ok := WriteTypedList(Ascii("java.util.ArrayList"), items, v);
      case Slice(items) => ok := WriteTypedList(Ascii("java.util.ArrayList"), items, v);
      case _ => ok := WriteScalar(v);
    }

    method WriteScalar(v: Value) returns (ok: bool)
      requires !v.Strings? && !HasContents(v)
      modifies this
      ensures Wrote(old(buf), Encode(v, old(objectDefs)), ok)
    {
      hide EncodeString, EncodeInt, EncodeLong, Be64;
      ok := true;
      match v
      case Nil => buf := buf + ['N' as int];
      case Bool(b) => buf := buf + [if b then 'T' as int else 'F' as int];
      case Str(s) => ok := WriteString(s);
      case Int(i) => WriteInt(i);
      case Long(l) => WriteLong(l);
      case Uint(u) => WriteLong(u);
      case Uint64(u) =>
        if u >= TWO_63 {
          return false;
        }
        WriteLong(u);
      case Float(bits) => WriteDouble(bits);
      case Unsupported => ok := false;
    }

    method WriteTypedObject(obj: Value) returns (ok: bool)
      requires obj.TypedObject?
      modifies this
      ensures Wrote(old(buf), Encode(obj, old(objectDefs)), ok)
      decreases true, obj, 0, |obj.fields| + 2
    {
      var names := SortKeys(obj.fields.Keys);
      SortedKeysSorts(obj.fields.Keys);
      ok := WriteObject(obj.typeName, names, ValuesAt(obj.fields, names), obj);
    }

    method WriteObject(typeName: GoString, names: seq<GoString>, values: seq<Value>, ghost ctx: Value) returns (ok: bool)
      requires Below(ctx, values)
      modifies this
      ensures Wrote(old(buf), EncodeObject(ctx, typeName, names, values, old(objectDefs)), ok)
      decreases true, ctx, 0, |values| + 1
    {
      if |names| != |values| {
        return false;
      }
      hide EncodeSeq, EncodeObjectHead;
      ghost var front := buf;
      ok := WriteObjectHead(typeName, names);
      if !ok {
        return;
      }
      ghost var head := EncodeObjectHead(typeName, names, old(objectDefs)).value;
      ok := WriteAll(values, ctx);
      if ok {
        ghost var body := EncodeSeq(ctx, values, head.defs).value;
        assert front + head.bytes + body.bytes == front + (head.bytes + body.bytes);
      }
    }

    /** The reference to an object's definition, after the definition itself when the
        table does not have it yet. */
    method WriteObjectHead(typeName: GoString, names: seq<GoString>) returns (ok: bool)
      modifies this
      ensures Wrote(old(buf), EncodeObjectHead(typeName, names, old(objectDefs)), ok)
    {
      hide ObjectDefKey, EncodeInt, EncodeNames, EncodeLenString;
      var key := ObjectDefKey(typeName, names);
      var ref;
      if key in objectDefs {
        ref := objectDefs[key];
      } else {
        ref := |objectDefs|;
        objectDefs := objectDefs[key := ref];
        var written := WriteDefinition(typeName, names);
        if !written {
          return false;
        }
      }
      ghost var start := buf;
      buf := buf + ['o' as int];
      WriteInt(ref);
      assert buf == start + (['o' as int] + EncodeInt(ref));
      if key !in old(objectDefs) {
        DefinitionThenRef(EncodeLenString(typeName), EncodeInt(|names|), EncodeNames(names).value, ['o' as int] + EncodeInt(ref));
      }
      ok := true;
    }

    /** The class definition that precedes the first object of its kind. */
    method WriteDefinition(typeName: GoString, names: seq<GoString>) returns (ok: bool)
      modifies this`buf
      ensures old(buf) <= buf && ok == EncodeNames(names).Some?
      ensures ok ==> buf == old(buf) + Definition(EncodeLenString(typeName), EncodeInt(|names|), EncodeNames(names).value)
    {
      hide EncodeString, EncodeLenString, EncodeInt, RuneCount;
      buf := buf + ['O' as int];
      WriteLenString(typeName);
      WriteInt(|names|);
      ghost var mark := buf;
      var i := 0;
      while i < |names|
        invariant 0 <= i <= |names|
        invariant EncodeNames(names[..i]).Some? && buf == mark + EncodeNames(names[..i]).value
      {
        var written := WriteString(names[i]);
        if !written {
          NamesRefused(names, i);
          return false;
        }
        NamesAppend(names[..i], names[i]);
        assert names[..i + 1] == names[..i] + [names[i]];
        i := i + 1;
      }
      assert names[..|names|] == names;
      ok := true;
    }

    method WriteTypedList(typeName: GoString, values: seq<Value>, ghost ctx: Value) returns (ok: bool)
      requires Below(ctx, values)
      modifies this
      ensures Wrote(old(buf), EncodeList(ctx, typeName, values, old(objectDefs)), ok)
      decreases true, ctx, 0, |values| + 1
    {
      hide EncodeSeq, EncodeLength, EncodeType, EncodeTypeTag, Below;
      NoTypeTag(typeName);
      buf := buf + ['V' as int];
      if typeName != [] {
        WriteType(typeName);
      }
      WriteLength(|values|);
      HeadInOrder(old(buf), EncodeTypeTag(typeName), EncodeLength(|values|));
      ok := WriteAll(values, ctx);
      if ok {
        buf := buf + ['z' as int];
        ListInOrder(old(buf), EncodeTypeTag(typeName), EncodeLength(|values|),
                    EncodeSeq(ctx, values, old(objectDefs)).value.bytes);
      }
    }

    method WriteMap(typeName: GoString, m: map<GoString, Value>, ghost ctx: Value) returns (ok: bool)
      requires forall k | k in m :: m[k] < ctx
      modifies this
      ensures Wrote(old(buf), EncodeMap(ctx, typeName, m, old(objectDefs)), ok)
      decreases true, ctx, 0, |m| + 1
    {
      hide EncodeMap, EncodeEntries, EncodeType, OrderedMapKeys;
      var ks := OrderKeys(m.Keys);
      EncodeMapIs(ctx, typeName, m, ks, objectDefs);
      buf := buf + ['M' as int];
      if typeName != [] {
        WriteType(typeName);
      }
      assert buf == old(buf) + (['M' as int] + EncodeTypeTag(typeName));
      ghost var front := buf;
      ok := WriteEntries(ks, ValuesAt(m, ks), ctx);
      if ok {
        ghost var body := EncodeEntries(ctx, ks, ValuesAt(m, ks), old(objectDefs)).value.bytes;
        assert front + body == old(buf) + (['M' as int] + EncodeTypeTag(typeName) + body);
      }
    }

    /** The loop over the entries of a map, up to its closing 'z'. */
    method WriteEntries(ks: seq<GoString>, vs: seq<Value>, ghost ctx: Value) returns (ok: bool)
      requires |ks| == |vs| && Below(ctx, vs)
      modifies this
      ensures Wrote(old(buf), EncodeEntries(ctx, ks, vs, old(objectDefs)), ok)
      decreases true, ctx, 0, |vs|
    {
      hide EncodeString, Encode, EncodeEntries, Below;
      ghost var whole := EncodeEntries(ctx, ks, vs, objectDefs);
      var i := 0;
      assert ks[0..] == ks && vs[0..] == vs && buf[|old(buf)|..] == [];
      AfterNothing(whole);
      while i < |ks|
        invariant 0 <= i <= |ks| && old(buf) <= buf && Below(ctx, vs[i..])
        invariant whole == After(buf[|old(buf)|..], EncodeEntries(ctx, ks[i..], vs[i..], objectDefs))
      {
        BelowTail(ctx, vs, i);
        ok := WriteEntry(ks, vs, i, buf[|old(buf)|..], ctx);
        if !ok {
          return;
        }
        i := i + 1;
      }
      EntriesEnd(ctx, objectDefs);
      assert ks[i..] == [] && vs[i..] == [];
      buf := buf + ['z' as int];
      ok := true;
    }

    /** One key and its value; what is left to write shrinks by that much. */
    method WriteEntry(ks: seq<GoString>, vs: seq<Value>, i: nat, ghost done: seq<byte>, ghost ctx: Value) returns (ok: bool)
      requires |ks| == |vs| && i < |ks| && Below(ctx, vs) && |done| <= |buf| && buf[|buf| - |done|..] == done
      modifies this
      ensures old(buf) <= buf
      ensures var left := EncodeEntries(ctx, ks[i..], vs[i..], old(objectDefs));
              if ok
              then After(done, left) == After(buf[|old(buf)| - |done|..], EncodeEntries(ctx, ks[i + 1..], vs[i + 1..], objectDefs))
              else left == None
      decreases true, ctx, 0, 0
    {
      hide EncodeString, Encode, EncodeEntries, Below;
      BelowTail(ctx, vs, i);
      assert vs[i..][0] == vs[i] && ks[i..][1..] == ks[i + 1..] && vs[i..][1..] == vs[i + 1..];
      EntriesStep(ctx, ks[i..], vs[i..], objectDefs);
      ok := WriteString(ks[i]);
      if ok {
        ok := WriteValue(vs[i]);
      }
      if ok {
        ghost var pair := EncodeString(ks[i]).value + Encode(vs[i], old(objectDefs)).value.bytes;
        assert buf == old(buf) + pair;
        assert buf[|old(buf)| - |done|..] == done + pair;
        AfterAfter(done, pair, EncodeEntries(ctx, ks[i + 1..], vs[i + 1..], objectDefs));
      }
    }

    /** The loop over the values of a list or an object. */
    method WriteAll(values: seq<Value>, ghost ctx: Value) returns (ok: bool)
      requires Below(ctx, values)
      modifies this
      ensures Wrote(old(buf), EncodeSeq(ctx, values, old(objectDefs)), ok)
      decreases true, ctx, 0, |values|
    {
      hide Encode, EncodeSeq, Below;
      var i := 0;
      ghost var whole := EncodeSeq(ctx, values, objectDefs);
      assert values[0..] == values && buf[|old(buf)|..] == [];
      AfterNothing(whole);
      while i < |values|
        invariant 0 <= i <= |values| && old(buf) <= buf && Below(ctx, values[i..])
        invariant whole == After(buf[|old(buf)|..], EncodeSeq(ctx, values[i..], objectDefs))
      {
        ghost var defs, done := objectDefs, buf[|old(buf)|..];
        BelowTail(ctx, values, i);
        assert values[i..][0] == values[i] && values[i..][1..] == values[i + 1..];
        SeqStep(ctx, values[i..], defs);
        ok := WriteValue(values[i]);
        if !ok {
          return;
        }
        ghost var first := Encode(values[i], defs).value.bytes;
        assert buf[|old(buf)|..] == done + first;
        AfterAfter(done, first, EncodeSeq(ctx, values[i + 1..], objectDefs));
        i := i + 1;
      }
      ok := true;
      SeqEnd(ctx, objectDefs);
      assert values[i..] == [];
      assert buf == old(buf) + buf[|old(buf)|..];
    }
  }

  lemma {:induction false} SeqStep(ctx: Value, vs: seq<Value>, defs: Defs)
    requires Below(ctx, vs) && vs != []
    ensures EncodeSeq(ctx, vs, defs) == match Encode(vs[0], defs)
              case Some(first) => After(first.bytes, EncodeSeq(ctx, vs[1..], first.defs))
              case None => None
  {
    hide Encode;
  }

  lemma {:induction false} SeqEnd(ctx: Value, defs: Defs)
    ensures EncodeSeq(ctx, [], defs) == Some(Encoded([], defs))
  {
  }

  lemma {:induction false} EntriesStep(ctx: Value, ks: seq<GoString>, vs: seq<Value>, defs: Defs)
    requires |ks| == |vs| && Below(ctx, vs) && vs != []
    ensures EncodeEntries(ctx, ks, vs, defs) == match (EncodeString(ks[0]), Encode(vs[0], defs))
              case (Some(key), Some(first)) =>
                After(key + first.bytes, EncodeEntries(ctx, ks[1..], vs[1..], first.defs))
              case _ => None
  {
    hide EncodeString, Encode;
    if EncodeString(ks[0]).Some? && Encode(vs[0], defs).Some? {
      var key, first := EncodeString(ks[0]).value, Encode(vs[0], defs).value;
      var rest := EncodeEntries(ctx, ks[1..], vs[1..], first.defs);
      if rest.Some? {
        assert key + (first.bytes + rest.value.bytes) == key + first.bytes + rest.value.bytes;
      }
    }
  }

  lemma {:induction false} EntriesEnd(ctx: Value, defs: Defs)
    ensures EncodeEntries(ctx, [], [], defs) == Some(Encoded(['z' as int], defs))
  {
  }

  // Appending piece by piece gives the pieces in order.

  function Definition(l: seq<byte>, n: seq<byte>, e: seq<byte>): seq<byte> {
    ['O' as int] + l + n + e
  }

  lemma {:induction false} DefinitionThenRef(l: seq<byte>, n: seq<byte>, e: seq<byte>, r: seq<byte>)
    ensures Definition(l, n, e) + r == ['O' as int] + (l + (n + (e + r)))
  {
    var o := ['O' as int];
    assert o + l + n + e + r == o + l + n + (e + r);
    assert o + l + n + (e + r) == o + l + (n + (e + r));
    assert o + l + (n + (e + r)) == o + (l + (n + (e + r)));
  }

  lemma {:induction false} NoTypeTag(typeName: GoString)
    ensures EncodeTypeTag(typeName) == if typeName == [] then [] else EncodeType(typeName)
  {
  }

  lemma {:induction false} HeadInOrder(b: seq<byte>, t: seq<byte>, l: seq<byte>)
    ensures b + ['V' as int] + t + l == b + (['V' as int] + (t + l))
    ensures b + ['V' as int] + [] + l == b + ['V' as int] + l
  {
  }

  lemma {:induction false} ListInOrder(b: seq<byte>, t: seq<byte>, l: seq<byte>, body: seq<byte>)
    ensures b + (['V' as int] + (t + l)) + body + ['z' as int] == b + (['V' as int] + (t + (l + (body + ['z' as int]))))
  {
    var v, bz := ['V' as int], body + ['z' as int];
    assert b + (v + (t + l)) + body + ['z' as int] == b + (v + (t + l)) + bz;
    assert t + l + bz == t + (l + bz);
    assert v + (t + l) + bz == v + (t + l + bz);
    assert b + (v + (t + l)) + bz == b + (v + (t + l) + bz);
  }

  lemma {:induction false} BelowTail(ctx: Value, vs: seq<Value>, i: nat)
    requires i < |vs| && Below(ctx, vs)
    ensures Below(ctx, vs[i..]) && Below(ctx, vs[i + 1..]) && (vs[i].Str? || vs[i] < ctx)
  {
  }

  lemma {:induction false} ValuesBelow(ctx: Value, m: map<GoString, Value>, ks: seq<GoString>)
    requires (forall k | k in m :: m[k] < ctx) && ks == OrderedMapKeys(m.Keys)
    ensures |ks| == |m| && ks == KeysOf(m) && (forall i | 0 <= i < |ks| :: ks[i] in m)
    ensures Below(ctx, ValuesAt(m, ks))
  {
    hide OrderedMapKeys;
    assert ks == KeysOf(m);
  }

  lemma {:induction false} EncodeMapIs(ctx: Value, typeName: GoString, m: map<GoString, Value>, ks: seq<GoString>, defs: Defs)
    requires (forall k | k in m :: m[k] < ctx) && ks == OrderedMapKeys(m.Keys)
    ensures |ks| == |m| && (forall i | 0 <= i < |ks| :: ks[i] in m) && Below(ctx, ValuesAt(m, ks))
    ensures EncodeMap(ctx, typeName, m, defs)
         == After(['M' as int] + EncodeTypeTag(typeName), EncodeEntries(ctx, ks, ValuesAt(m, ks), defs))
  {
    hide EncodeEntries, EncodeTypeTag, OrderedMapKeys, Below;
    ValuesBelow(ctx, m, ks);
    AfterAssoc(['M' as int], EncodeTypeTag(typeName), EncodeEntries(ctx, ks, ValuesAt(m, ks), defs));
  }

  lemma {:induction false} AfterAssoc(a: seq<byte>, b: seq<byte>, e: Option<Encoded>)
    ensures After(a + b, e) == match e
              case Some(x) => Some(Encoded(a + (b + x.bytes), x.defs))
              case None => None
  {
    if e.Some? {
      assert a + b + e.value.bytes == a + (b + e.value.bytes);
    }
  }
}

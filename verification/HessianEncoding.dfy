/** The values the Hessian writer accepts, the key order it imposes on Go's
    unordered maps, and the bytes it writes, as functions of the value and of the
    table of object definitions written so far. */
module HessianEncoding {
  import opened Options
  import opened Bytes

  datatype Value =
    | Nil
    | Bool(b: bool)
    | Str(s: GoString)
    | Int(i: int64)             // int, int8, int16, int32
    | Long(l: int64)            // int64, uint8, uint16, uint32
    | Uint(u: uint64)           // uint
    | Uint64(u: uint64)         // uint64
    | Float(bits: uint64)       // float32 (widened), float64
    | Strings(strs: seq<GoString>)
    | TypedObject(typeName: GoString, fields: map<GoString, Value>)
    | LinkedHashMap(entries: map<GoString, Value>)
    | StringMap(entries: map<GoString, Value>)
    | ArrayList(items: seq<Value>)
    | Slice(items: seq<Value>)
    | Unsupported

  // ------------------------------------------------------------------
  // Key order

  /** Go's string order: lexicographic by byte. */
  predicate Less(a: GoString, b: GoString) {
    b != [] && (a == [] || a[0] < b[0] || (a[0] == b[0] && Less(a[1..], b[1..])))
  }

  /** The two agree on their first n bytes, where a ends or has the smaller byte. */
  predicate LessAt(a: GoString, b: GoString, n: nat) {
    n <= |a| && n < |b| && a[..n] == b[..n] && (n == |a| || a[n] < b[n])
  }

  /** Less is decided at the first difference. */
  lemma {:induction false} LessMeans(a: GoString, b: GoString)
    ensures Less(a, b) <==> exists n: nat :: LessAt(a, b, n)
    decreases |a|
  {
    if b != [] {
      if a == [] {
        assert LessAt(a, b, 0);
      } else {
        LessMeans(a[1..], b[1..]);
        if Less(a, b) {
          if a[0] < b[0] {
            assert LessAt(a, b, 0);
          } else {
            var n: nat :| LessAt(a[1..], b[1..], n);
            assert a[..n + 1] == [a[0]] + a[1..][..n] && b[..n + 1] == [b[0]] + b[1..][..n];
            assert LessAt(a, b, n + 1);
          }
        }
        if n: nat :| LessAt(a, b, n) {
          if n > 0 {
            assert a[..n][0] == b[..n][0];
            assert a[1..][..n - 1] == a[..n][1..] && b[1..][..n - 1] == b[..n][1..];
            assert LessAt(a[1..], b[1..], n - 1);
          }
        }
      }
    }
  }

  lemma {:induction false} LessTotal(a: GoString, b: GoString)
    ensures Less(a, b) || Less(b, a) || a == b
  {
    if a != [] && b != [] && a[0] == b[0] {
      LessTotal(a[1..], b[1..]);
      assert a == [a[0]] + a[1..] && b == [b[0]] + b[1..];
    }
  }

  lemma {:induction false} LessTransitive(a: GoString, b: GoString, c: GoString)
    requires Less(a, b) && Less(b, c)
    ensures Less(a, c)
  {
    if a != [] && a[0] == b[0] == c[0] {
      LessTransitive(a[1..], b[1..], c[1..]);
    }
  }

  lemma {:induction false} LessIrreflexive(a: GoString)
    ensures !Less(a, a)
  {
    if a != [] {
      LessIrreflexive(a[1..]);
    }
  }

  ghost predicate Ascending(ks: seq<GoString>) {
    forall i, j | 0 <= i < j < |ks| :: Less(ks[i], ks[j])
  }

  /** The sequence holds each key of the set exactly once. */
  ghost predicate Enumerates(ks: seq<GoString>, keys: set<GoString>) {
    && |ks| == |keys|
    && (forall i | 0 <= i < |ks| :: ks[i] in keys)
    && (forall i, j | 0 <= i < j < |ks| :: ks[i] != ks[j])
  }

  ghost predicate IsLeast(k: GoString, keys: set<GoString>) {
    k in keys && forall x | x in keys && x != k :: Less(k, x)
  }

  /** The keys of a set in ascending order. */
  ghost function SortedKeys(keys: set<GoString>): seq<GoString>
    decreases |keys|
  {
    if keys == {} then [] else
    LeastExists(keys);
    var k :| IsLeast(k, keys);
    [k] + SortedKeys(keys - {k})
  }

  lemma {:induction false} LeastExists(keys: set<GoString>)
    requires keys != {}
    ensures exists k :: IsLeast(k, keys)
    decreases |keys|
  {
    var c :| c in keys;
    var rest := keys - {c};
    if rest == {} {
      assert keys == {c};
      assert IsLeast(c, keys);
    } else {
      LeastExists(rest);
      var m :| IsLeast(m, rest);
      LeastOfTwo(c, m, keys);
    }
  }

  lemma {:induction false} LeastOfTwo(c: GoString, m: GoString, keys: set<GoString>)
    requires c in keys && IsLeast(m, keys - {c})
    ensures IsLeast(c, keys) || IsLeast(m, keys)
  {
    LessTotal(c, m);
    if Less(c, m) {
      forall x | x in keys && x != c ensures Less(c, x) {
        if x != m { LessTransitive(c, m, x); }
      }
    }
  }

  lemma {:induction false} SortedKeysSorts(keys: set<GoString>)
    ensures Ascending(SortedKeys(keys)) && Enumerates(SortedKeys(keys), keys)
    decreases |keys|
  {
    if keys != {} {
      LeastExists(keys);
      var ks := SortedKeys(keys);
      var k := ks[0];
      assert IsLeast(k, keys) && ks[1..] == SortedKeys(keys - {k});
      SortedKeysSorts(keys - {k});
      forall i, j | 0 <= i < j < |ks| ensures Less(ks[i], ks[j]) && ks[i] != ks[j] {
        assert ks[j] == ks[1..][j - 1];
        if i > 0 { assert ks[i] == ks[1..][i - 1]; }
      }
    }
  }

  /** Only one ascending sequence enumerates a set: whatever order Go iterates a map
      in, sorting its keys gives the same sequence. */
  lemma {:induction false} AscendingUnique(ks: seq<GoString>, keys: set<GoString>)
    requires Ascending(ks) && Enumerates(ks, keys)
    ensures ks == SortedKeys(keys)
    decreases |keys|
  {
    if keys != {} {
      LeastExists(keys);
      var k := SortedKeys(keys)[0];
      assert IsLeast(k, keys);
      if k != ks[0] {
        EnumerationCovers(ks, keys, k);
        var j :| 0 <= j < |ks| && ks[j] == k;
        LessTransitive(k, ks[0], k);
        LessIrreflexive(k);
      }
      var tail := ks[1..];
      forall i | 0 <= i < |tail| ensures tail[i] in keys - {k} { assert tail[i] == ks[i + 1]; }
      AscendingUnique(tail, keys - {k});
    }
  }

  lemma {:induction false} EnumerationCovers(ks: seq<GoString>, keys: set<GoString>, k: GoString)
    requires Enumerates(ks, keys) && k in keys
    ensures k in ks
    decreases |ks|
  {
    if ks[0] != k {
      var tail := ks[1..];
      forall i | 0 <= i < |tail| ensures tail[i] in keys - {ks[0]} { assert tail[i] == ks[i + 1]; }
      EnumerationCovers(tail, keys - {ks[0]}, k);
    }
  }

  const TYPE_KEY: GoString := Ascii("@type")

  /** Map keys ascending, except that "@type" comes first. */
  ghost function OrderedMapKeys(keys: set<GoString>): seq<GoString> {
    if TYPE_KEY in keys then [TYPE_KEY] + SortedKeys(keys - {TYPE_KEY}) else SortedKeys(keys)
  }

  lemma {:induction false} OrderedMapKeysEnumerate(keys: set<GoString>)
    ensures Enumerates(OrderedMapKeys(keys), keys)
  {
    if TYPE_KEY in keys {
      SortedKeysSorts(keys - {TYPE_KEY});
    } else {
      SortedKeysSorts(keys);
    }
  }

  // ------------------------------------------------------------------
  // Encoding

  type Defs = map<GoString, nat>

  /** The bytes written and the definition table afterwards. */
  datatype Encoded = Encoded(bytes: seq<byte>, defs: Defs)

  function Join(parts: seq<GoString>, sep: GoString): GoString {
    if parts == [] then []
    else if |parts| == 1 then parts[0]
    else parts[0] + sep + Join(parts[1..], sep)
  }

  function ObjectDefKey(typeName: GoString, names: seq<GoString>): GoString {
    typeName + [0] + Join(names, [0])
  }

  function EncodeInt(n: int): (r: seq<byte>)
    ensures |r| == 5
  {
    ['I' as int] + Be32(Wrap32(n))
  }

  function EncodeLong(n: int): seq<byte> {
    ['L' as int] + Be64(n)
  }

  /** None: the string has more than 65535 runes. */
  function EncodeString(s: GoString): Option<seq<byte>> {
    if s == [] then Some([0])
    else if RuneCount(s) <= 0x1f then Some([RuneCount(s)] + s)
    else if RuneCount(s) > 0xffff then None
    else Some(['S' as int] + (Be16(RuneCount(s)) + s))
  }

  function EncodeLenString(s: GoString): seq<byte> {
    EncodeInt(RuneCount(s)) + s
  }

  function EncodeType(s: GoString): seq<byte> {
    ['t' as int] + (Be16(RuneCount(s)) + s)
  }

  /** An untyped container has no type bytes at all. */
  function EncodeTypeTag(s: GoString): seq<byte> {
    if s == [] then [] else EncodeType(s)
  }

  function EncodeLength(n: nat): seq<byte> {
    if n <= 0xff then [0x6e, n] else ['l' as int] + Be32(n)
  }

  function EncodeNames(names: seq<GoString>): Option<seq<byte>> {
    if names == [] then Some([]) else
    match (EncodeString(names[0]), EncodeNames(names[1..]))
    case (Some(a), Some(b)) => Some(a + b)
    case _ => None
  }

  /** What precedes an object's field values: the class definition when this is the
      first object of its kind, then the reference to it. */
  function EncodeObjectHead(typeName: GoString, names: seq<GoString>, defs: Defs): Option<Encoded> {
    var key := ObjectDefKey(typeName, names);
    if key in defs then Some(Encoded(['o' as int] + EncodeInt(defs[key]), defs))
    else match EncodeNames(names)
      case None => None
      case Some(encoded) =>
        Some(Encoded(
          ['O' as int] + (EncodeLenString(typeName) + (EncodeInt(|names|)
            + (encoded + (['o' as int] + EncodeInt(|defs|))))), defs[key := |defs|]))
  }

  /** Values inside ctx, or bare strings: what a container may hold. */
  ghost predicate Below(ctx: Value, vs: seq<Value>) {
    forall i | 0 <= i < |vs| :: vs[i].Str? || vs[i] < ctx
  }

  function StringsToAny(strs: seq<GoString>): (vs: seq<Value>)
    ensures |vs| == |strs|
    ensures forall i | 0 <= i < |vs| :: vs[i] == Str(strs[i])
  {
    seq(|strs|, i requires 0 <= i < |strs| => Str(strs[i]))
  }

  ghost function KeysOf(m: map<GoString, Value>): (ks: seq<GoString>)
    ensures ks == OrderedMapKeys(m.Keys)
    ensures |ks| == |m| && forall i | 0 <= i < |ks| :: ks[i] in m
  {
    OrderedMapKeysEnumerate(m.Keys);
    OrderedMapKeys(m.Keys)
  }

  function ValuesAt(m: map<GoString, Value>, ks: seq<GoString>): (vs: seq<Value>)
    requires forall i | 0 <= i < |ks| :: ks[i] in m
    ensures |vs| == |ks|
    ensures forall i | 0 <= i < |vs| :: vs[i] == m[ks[i]]
  {
    seq(|ks|, i requires 0 <= i < |ks| => m[ks[i]])
  }

  /** None: the writer refuses the value. */
  ghost function Encode(v: Value, defs: Defs): (r: Option<Encoded>)
    ensures r.Some? ==> |defs| <= |r.value.defs|
    decreases !v.Str?, v
  {
    match v
    case Nil => Some(Encoded(['N' as int], defs))
    case Bool(b) => Some(Encoded([if b then 'T' as int else 'F' as int], defs))
    case Str(s) =>
      (match EncodeString(s)
       case Some(bytes) => Some(Encoded(bytes, defs))
       case None => None)
    case Int(i) => Some(Encoded(EncodeInt(i), defs))
    case Long(l) => Some(Encoded(EncodeLong(l), defs))
    case Uint(u) => Some(Encoded(EncodeLong(u), defs))
    case Uint64(u) => if u >= TWO_63 then None else Some(Encoded(EncodeLong(u), defs))
    case Float(bits) => Some(Encoded(['D' as int] + Be64(bits), defs))
    case Strings(strs) => EncodeList(v, Ascii("[string]"), StringsToAny(strs), defs)
    case TypedObject(typeName, fields) =>
      var names := SortedKeys(fields.Keys);
      SortedKeysSorts(fields.Keys);
      EncodeObject(v, typeName, names, ValuesAt(fields, names), defs)
    case LinkedHashMap(m) => EncodeMap(v, Ascii("java.util.LinkedHashMap"), m, defs)
    case StringMap(m) => EncodeMap(v, [], m, defs)
    case ArrayList(items) => EncodeList(v, Ascii("java.util.ArrayList"), items, defs)
    case Slice(items) => EncodeList(v, Ascii("java.util.ArrayList"), items, defs)
    case Unsupported => None
  }

  /** Values one after another, each seeing the definitions of those before it. */
  ghost function EncodeSeq(ctx: Value, vs: seq<Value>, defs: Defs): (r: Option<Encoded>)
    requires Below(ctx, vs)
    ensures r.Some? ==> |defs| <= |r.value.defs|
    decreases true, ctx, |vs|
  {
    if vs == [] then Some(Encoded([], defs)) else
    match Encode(vs[0], defs)
    case None => None
    case Some(first) =>
      match EncodeSeq(ctx, vs[1..], first.defs)
      case None => None
      case Some(rest) => Some(Encoded(first.bytes + rest.bytes, rest.defs))
  }

  ghost function EncodeList(ctx: Value, typeName: GoString, vs: seq<Value>, defs: Defs): (r: Option<Encoded>)
    requires Below(ctx, vs)
    ensures r.Some? ==> |defs| <= |r.value.defs|
    decreases true, ctx, |vs| + 1
  {
    match EncodeSeq(ctx, vs, defs)
    case None => None
    case Some(body) =>
      Some(Encoded(['V' as int] + (EncodeTypeTag(typeName) + (EncodeLength(|vs|) + (body.bytes + ['z' as int]))),
                   body.defs))
  }

  /** Key/value pairs and the closing 'z'. */
  ghost function EncodeEntries(ctx: Value, ks: seq<GoString>, vs: seq<Value>, defs: Defs): (r: Option<Encoded>)
    requires |ks| == |vs| && Below(ctx, vs)
    ensures r.Some? ==> |defs| <= |r.value.defs|
    decreases true, ctx, |vs|
  {
    if vs == [] then Some(Encoded(['z' as int], defs)) else
    match EncodeString(ks[0])
    case None => None
    case Some(key) =>
      match Encode(vs[0], defs)
      case None => None
      case Some(first) =>
        match EncodeEntries(ctx, ks[1..], vs[1..], first.defs)
        case None => None
        case Some(rest) => Some(Encoded(key + (first.bytes + rest.bytes), rest.defs))
  }

  ghost function EncodeMap(ctx: Value, typeName: GoString, m: map<GoString, Value>, defs: Defs): (r: Option<Encoded>)
    requires forall k | k in m :: m[k] < ctx
    ensures r.Some? ==> |defs| <= |r.value.defs|
    decreases true, ctx, |m| + 1
  {
    var ks := KeysOf(m);
    match EncodeEntries(ctx, ks, ValuesAt(m, ks), defs)
    case None => None
    case Some(body) =>
      Some(Encoded(['M' as int] + (EncodeTypeTag(typeName) + body.bytes), body.defs))
  }

  ghost function EncodeObject(ctx: Value, typeName: GoString, names: seq<GoString>, vs: seq<Value>, defs: Defs): (r: Option<Encoded>)
    requires Below(ctx, vs)
    ensures r.Some? ==> |defs| <= |r.value.defs|
    decreases true, ctx, |vs| + 1
  {
    if |names| != |vs| then None else
    match EncodeObjectHead(typeName, names, defs)
    case None => None
    case Some(head) =>
      match EncodeSeq(ctx, vs, head.defs)
      case None => None
      case Some(body) => Some(Encoded(head.bytes + body.bytes, body.defs))
  }
}

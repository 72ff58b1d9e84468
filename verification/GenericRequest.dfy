/** The content of a generic invocation: one SofaRequest object, then each argument,
    written by one writer and so read back by one reader. */
module GenericRequest {
  import opened Options
  import opened Bytes
  import opened GoValues
  import opened HessianDecoding
  import opened HessianEncoding
  import opened HessianRoundTrip
  import opened HessianReadBack
  import opened HessianWriter

  // ------------------------------------------------------------------
  // Arguments

  /** A JSON number and what strconv makes of its text. */
  datatype Number = Number(raw: GoString, floatLike: bool, asInt: Option<int64>, asFloat: Option<uint64>)

  datatype Arg =
    | Plain(v: Value)
    | Num(n: Number)
    | Items(items: seq<Arg>)
    | Entries(entries: map<GoString, Arg>)

  function NumberValue(n: Number): Value {
    if n.floatLike then
      if n.asFloat.Some? then Float(n.asFloat.value) else Str(n.raw)
    else if n.asInt.Some? then Long(n.asInt.value)
    else if n.asFloat.Some? then Float(n.asFloat.value)
    else Str(n.raw)
  }

  /** The class a map names under "@type", blanks trimmed away; empty when it names none. */
  function ClassName(trim: GoString -> GoString, m: map<GoString, Arg>): GoString {
    if TYPE_KEY in m && m[TYPE_KEY].Plain? && m[TYPE_KEY].v.Str? then trim(m[TYPE_KEY].v.s) else []
  }

  /** Lists travel as java.util.ArrayList, maps that name a class as objects of that
      class, other maps as java.util.LinkedHashMap. */
  function Prepare(trim: GoString -> GoString, arg: Arg): Value {
    match arg
    case Plain(v) => v
    case Num(n) => NumberValue(n)
    case Items(items) => ArrayList(seq(|items|, i requires 0 <= i < |items| => Prepare(trim, items[i])))
    case Entries(m) =>
      var className := ClassName(trim, m);
      if className != [] then
        TypedObject(className, map k | k in m && k != TYPE_KEY :: Prepare(trim, m[k]))
      else
        LinkedHashMap(map k | k in m :: Prepare(trim, m[k]))
  }

  function PrepareArgs(trim: GoString -> GoString, args: seq<Arg>): (vs: seq<Value>)
    ensures |vs| == |args| && forall i | 0 <= i < |vs| :: vs[i] == Prepare(trim, args[i])
  {
    seq(|args|, i requires 0 <= i < |args| => Prepare(trim, args[i]))
  }

  /** An argument as JSON gives it. */
  ghost predicate Json(arg: Arg) {
    match arg
    case Plain(v) => v.Nil? || v.Bool? || v.Str?
    case Num(_) => true
    case Items(items) => forall i | 0 <= i < |items| :: Json(items[i])
    case Entries(m) => forall k | k in m :: Json(m[k])
  }

  /** Nothing untyped is left: lists and maps have a Java class, and an object's class is not
      among its fields. */
  ghost predicate WireForm(v: Value) {
    match v
    case TypedObject(typeName, fields) =>
      typeName != [] && TYPE_KEY !in fields && forall k | k in fields :: WireForm(fields[k])
    case LinkedHashMap(m) => forall k | k in m :: WireForm(m[k])
    case ArrayList(items) => forall i | 0 <= i < |items| :: WireForm(items[i])
    case Strings(_) => false
    case StringMap(_) => false
    case Slice(_) => false
    case Unsupported => false
    case _ => true
  }

  /** The text is a whole number, if it does not look like a fraction and is one; else a double,
      if it is one; else it stays text. */
  ghost predicate NumberStands(v: Value, n: Number) {
    match v
    case Long(i) => !n.floatLike && n.asInt == Some(i)
    case Float(bits) => n.asFloat == Some(bits) && (n.floatLike || n.asInt == None)
    case Str(s) => s == n.raw && n.asFloat == None && (n.floatLike || n.asInt == None)
    case _ => false
  }

  /** The map says of which class it is. */
  ghost predicate SaysClass(trim: GoString -> GoString, m: map<GoString, Arg>, className: GoString) {
    className != [] && Ascii("@type") in m && exists s :: m[Ascii("@type")] == Plain(Str(s)) && trim(s) == className
  }

  /** What the argument prepared stands for: the argument again, numbers by their text. */
  ghost predicate StandsFor(trim: GoString -> GoString, v: Value, arg: Arg)
    decreases arg
  {
    match arg
    case Plain(w) => v == w
    case Num(n) => NumberStands(v, n)
    case Items(items) => v.ArrayList? && |v.items| == |items| && forall i | 0 <= i < |items| :: StandsFor(trim, v.items[i], items[i])
    case Entries(m) =>
      if exists c :: SaysClass(trim, m, c) then
        && v.TypedObject? && SaysClass(trim, m, v.typeName) && v.fields.Keys == m.Keys - {Ascii("@type")}
        && forall k | k in v.fields :: StandsFor(trim, v.fields[k], m[k])
      else v.LinkedHashMap? && v.entries.Keys == m.Keys && forall k | k in m :: StandsFor(trim, v.entries[k], m[k])
  }

  /** A prepared argument has nothing untyped left in it, and stands for the argument: an
      object exactly where a class is named, with all other entries for its fields. */
  lemma {:induction false} PrepareYields(trim: GoString -> GoString, arg: Arg)
    requires Json(arg)
    ensures WireForm(Prepare(trim, arg)) && StandsFor(trim, Prepare(trim, arg), arg)
    decreases arg
  {
    hide ClassName, NumberValue, SaysClass, NumberStands;
    match arg
    case Items(items) =>
      forall i | 0 <= i < |items|
        ensures WireForm(Prepare(trim, items[i])) && StandsFor(trim, Prepare(trim, items[i]), items[i])
      {
        PrepareYields(trim, items[i]);
      }
    case Entries(m) =>
      forall k | k in m ensures WireForm(Prepare(trim, m[k])) && StandsFor(trim, Prepare(trim, m[k]), m[k]) {
        PrepareYields(trim, m[k]);
      }
      ClassNamed(trim, m);
      assert ClassName(trim, m) != [] ==> SaysClass(trim, m, ClassName(trim, m));
    case Num(n) => NumberPlain(n);
    case _ =>
  }

  lemma {:induction false} NumberPlain(n: Number)
    ensures WireForm(NumberValue(n)) && NumberStands(NumberValue(n), n)
  {
  }

  lemma {:induction false} ClassNamed(trim: GoString -> GoString, m: map<GoString, Arg>)
    ensures forall c :: SaysClass(trim, m, c) <==> c != [] && c == ClassName(trim, m)
  {
    assert TYPE_KEY == Ascii("@type");
  }

  // ------------------------------------------------------------------
  // The request

  datatype RequestSpec = RequestSpec(
    service: GoString, methodName: GoString, paramTypes: seq<GoString>, args: seq<Arg>,
    version: GoString, uniqueId: GoString, targetAppName: GoString, baggage: map<GoString, GoString>)

  function RequestClass(): GoString { Ascii("com.alipay.sofa.rpc.core.request.SofaRequest") }
  function BaggageKey(): GoString { Ascii("rpc_req_baggage") }

  const APP_FIELD: GoString := Ascii("targetAppName")
  const METHOD_FIELD: GoString := Ascii("methodName")
  const SERVICE_FIELD: GoString := Ascii("targetServiceUniqueName")
  const PROPS_FIELD: GoString := Ascii("requestProps")
  const TYPES_FIELD: GoString := Ascii("methodArgSigs")

  function FieldNames(): (names: seq<GoString>)
    ensures |names| == 5
  {
    [APP_FIELD, METHOD_FIELD, SERVICE_FIELD, PROPS_FIELD, TYPES_FIELD]
  }

  function UniqueName(trim: GoString -> GoString, spec: RequestSpec): GoString {
    var version := trim(spec.version);
    trim(spec.service) + Ascii(":") + (if version == [] then Ascii("1.0") else version)
    + (if trim(spec.uniqueId) == [] then [] else Ascii(":") + trim(spec.uniqueId))
  }

  function FixedProps(): map<GoString, Value> {
    map[Ascii("sofa_head_generic_type") := Str(Ascii("2")),
        Ascii("type") := Str(Ascii("sync")),
        Ascii("generic.revise") := Str(Ascii("true"))]
  }

  /** Every baggage key names something, and no two name the same thing, blanks aside. */
  ghost predicate BaggageFits(trim: GoString -> GoString, baggage: map<GoString, GoString>) {
    && (forall k | k in baggage :: trim(k) != [])
    && (forall k, k' | k in baggage && k' in baggage && k != k' :: trim(k) != trim(k'))
  }

  ghost function Trimmed(trim: GoString -> GoString, baggage: map<GoString, GoString>): map<GoString, Value>
    requires BaggageFits(trim, baggage)
  {
    map k | k in baggage :: trim(k) := Str(baggage[k])
  }

  ghost function RequestProps(trim: GoString -> GoString, baggage: map<GoString, GoString>): map<GoString, Value>
    requires BaggageFits(trim, baggage)
  {
    if baggage == map[] then FixedProps()
    else FixedProps()[BaggageKey() := StringMap(Trimmed(trim, baggage))]
  }

  /** The five fields of the request object, in their order. */
  ghost function RequestFields(trim: GoString -> GoString, spec: RequestSpec): (vs: seq<Value>)
    requires BaggageFits(trim, spec.baggage)
    ensures |vs| == 5
  {
    [if trim(spec.targetAppName) == [] then Nil else Str(trim(spec.targetAppName)),
     Str(spec.methodName),
     Str(UniqueName(trim, spec)),
     StringMap(RequestProps(trim, spec.baggage)),
     Strings(spec.paramTypes)]
  }

  /** The whole content; None when the request is refused. */
  ghost function Content(trim: GoString -> GoString, spec: RequestSpec): Option<seq<byte>> {
    if trim(spec.service) == [] || trim(spec.methodName) == [] || |spec.paramTypes| != |spec.args|
       || !BaggageFits(trim, spec.baggage) then None
    else
      var fields := RequestFields(trim, spec);
      var args := PrepareArgs(trim, spec.args);
      match EncodeObject(Slice(fields), RequestClass(), FieldNames(), fields, map[])
      case None => None
      case Some(request) =>
        match EncodeSeq(Slice(args), args, request.defs)
        case None => None
        case Some(rest) => Some(request.bytes + rest.bytes)
  }

  // ------------------------------------------------------------------
  // Building it

  /** addRequestBaggage: the trimmed keys in sorted order, refusing a key that trims to
      nothing or to one seen before. */
  method AddRequestBaggage(trim: GoString -> GoString, baggage: map<GoString, GoString>)
    returns (props: Option<map<GoString, Value>>)
    ensures props.Some? <==> BaggageFits(trim, baggage)
    ensures props.Some? ==> props.value == RequestProps(trim, baggage)
  {
    hide FixedProps, BaggageKey;
    if baggage == map[] {
      return Some(FixedProps());
    }
    var keys := Writer.SortKeys(baggage.Keys);
    SortedKeysSorts(baggage.Keys);
    hide SortedKeys;
    var trimmed: map<GoString, Value> := map[];
    var i := 0;
    while i < |keys|
      invariant 0 <= i <= |keys|
      invariant FirstTrimmed(trim, baggage, keys, i, trimmed)
    {
      hide FirstTrimmed, BaggageFits;
      var key := trim(keys[i]);
      if key == [] {
        Refused(trim, baggage, keys, i, trimmed);
        return None;
      }
      if key in trimmed {
        Refused(trim, baggage, keys, i, trimmed);
        return None;
      }
      NextTrimmed(trim, baggage, keys, i, trimmed);
      trimmed := trimmed[key := Str(baggage[keys[i]])];
      i := i + 1;
    }
    AllTrimmed(trim, baggage, keys, trimmed);
    return Some(FixedProps()[BaggageKey() := StringMap(trimmed)]);
  }

  /** trimmed holds the first n keys, trimmed and found to differ. */
  ghost predicate FirstTrimmed(trim: GoString -> GoString, baggage: map<GoString, GoString>, keys: seq<GoString>, n: nat, trimmed: map<GoString, Value>) {
    && n <= |keys|
    && Enumerates(keys, baggage.Keys)
    && (forall j | 0 <= j < n :: trim(keys[j]) != [] && trim(keys[j]) in trimmed && trimmed[trim(keys[j])] == Str(baggage[keys[j]]))
    && (forall j, j' | 0 <= j < j' < n :: trim(keys[j]) != trim(keys[j']))
    && (forall t | t in trimmed :: ComesFrom(trim, keys, n, t))
  }

  ghost predicate ComesFrom(trim: GoString -> GoString, keys: seq<GoString>, n: nat, t: GoString) {
    exists j :: 0 <= j < n <= |keys| && trim(keys[j]) == t
  }

  lemma {:induction false} ComesFromMore(trim: GoString -> GoString, keys: seq<GoString>, n: nat, t: GoString)
    requires n < |keys| && (ComesFrom(trim, keys, n, t) || trim(keys[n]) == t)
    ensures ComesFrom(trim, keys, n + 1, t)
  {
  }

  lemma {:induction false} AllFit(trim: GoString -> GoString, baggage: map<GoString, GoString>, keys: seq<GoString>, trimmed: map<GoString, Value>)
    requires FirstTrimmed(trim, baggage, keys, |keys|, trimmed)
    ensures BaggageFits(trim, baggage)
  {
    hide ComesFrom;
    forall k, k' | k in baggage && k' in baggage && k != k' ensures trim(k) != [] && trim(k) != trim(k') {
      EnumerationCovers(keys, baggage.Keys, k);
      EnumerationCovers(keys, baggage.Keys, k');
      var i :| 0 <= i < |keys| && keys[i] == k;
      var j :| 0 <= j < |keys| && keys[j] == k';
      assert i < j || j < i;
    }
    forall k | k in baggage ensures trim(k) != [] {
      EnumerationCovers(keys, baggage.Keys, k);
    }
  }

  lemma {:induction false} AllTrimmed(trim: GoString -> GoString, baggage: map<GoString, GoString>, keys: seq<GoString>, trimmed: map<GoString, Value>)
    requires FirstTrimmed(trim, baggage, keys, |keys|, trimmed)
    ensures BaggageFits(trim, baggage) && trimmed == Trimmed(trim, baggage)
  {
    AllFit(trim, baggage, keys, trimmed);
    hide BaggageFits;
    forall k | k in baggage ensures trim(k) != [] && trim(k) in trimmed && trimmed[trim(k)] == Str(baggage[k]) {
      EnumerationCovers(keys, baggage.Keys, k);
    }
    forall t | t in trimmed ensures exists k :: k in baggage && trim(k) == t {
      var j :| 0 <= j < |keys| && trim(keys[j]) == t;
      assert keys[j] in baggage;
    }
    IsTrimmed(trim, baggage, trimmed);
  }

  /** The trimmed map is the only one with these entries and no others. */
  lemma {:induction false} IsTrimmed(trim: GoString -> GoString, baggage: map<GoString, GoString>, m: map<GoString, Value>)
    requires BaggageFits(trim, baggage)
    requires forall k | k in baggage :: trim(k) in m && m[trim(k)] == Str(baggage[k])
    requires forall t | t in m :: exists k :: k in baggage && trim(k) == t
    ensures m == Trimmed(trim, baggage)
  {
    var w := Trimmed(trim, baggage);
    assert m.Keys == w.Keys;
    forall t | t in m ensures m[t] == w[t] {
      var k :| k in baggage && trim(k) == t;
    }
  }

  /** A key that trims to nothing, or two that trim to the same, cannot fit. */
  lemma {:induction false} Refused(trim: GoString -> GoString, baggage: map<GoString, GoString>, keys: seq<GoString>, i: nat, trimmed: map<GoString, Value>)
    requires FirstTrimmed(trim, baggage, keys, i, trimmed) && i < |keys|
    requires trim(keys[i]) == [] || trim(keys[i]) in trimmed
    ensures !BaggageFits(trim, baggage)
  {
    assert keys[i] in baggage;
    if trim(keys[i]) != [] {
      var j :| 0 <= j < i && trim(keys[j]) == trim(keys[i]);
      assert keys[j] in baggage && keys[j] != keys[i];
    }
  }

  lemma {:induction false} NextTrimmed(trim: GoString -> GoString, baggage: map<GoString, GoString>, keys: seq<GoString>, i: nat, trimmed: map<GoString, Value>)
    requires FirstTrimmed(trim, baggage, keys, i, trimmed) && i < |keys|
    requires trim(keys[i]) != [] && trim(keys[i]) !in trimmed
    ensures keys[i] in baggage
    ensures FirstTrimmed(trim, baggage, keys, i + 1, trimmed[trim(keys[i]) := Str(baggage[keys[i]])])
  {
    hide ComesFrom;
    var next := trimmed[trim(keys[i]) := Str(baggage[keys[i]])];
    forall t | t in next ensures ComesFrom(trim, keys, i + 1, t) {
      ComesFromMore(trim, keys, i, t);
    }
  }

  // ------------------------------------------------------------------
  // The header that travels beside it

  const SERVICE: GoString := Ascii("service")
  const METHOD_NAME: GoString := Ascii("sofa_head_method_name")
  const TARGET_SERVICE: GoString := Ascii("sofa_head_target_service")
  const GENERIC_TYPE: GoString := Ascii("sofa_head_generic_type")
  const CALL_TYPE: GoString := Ascii("type")
  const REVISE: GoString := Ascii("generic.revise")
  const TARGET_APP: GoString := Ascii("sofa_head_target_app")

  function RequestHeader(trim: GoString -> GoString, methodName: GoString, uniqueName: GoString, targetAppName: GoString): map<GoString, GoString> {
    var header := map[
      SERVICE := uniqueName,
      METHOD_NAME := methodName,
      TARGET_SERVICE := uniqueName,
      GENERIC_TYPE := Ascii("2"),
      CALL_TYPE := Ascii("sync"),
      REVISE := Ascii("true")];
    if trim(targetAppName) != [] then header[TARGET_APP := targetAppName] else header
  }

  /** Header and content speak of the same call: service, method, properties, and the target
      application up to the blanks around its name, which the header keeps. */
  ghost predicate HeaderAgrees(trim: GoString -> GoString, header: map<GoString, GoString>, fields: seq<Value>)
    requires |fields| == 5
  {
    && SERVICE in header && TARGET_SERVICE in header && METHOD_NAME in header
    && fields[1] == Str(header[METHOD_NAME])
    && fields[2] == Str(header[SERVICE]) && header[TARGET_SERVICE] == header[SERVICE]
    && (forall k | k in FixedProps() :: k in header && FixedProps()[k] == Str(header[k]))
    && fields[0] == (if TARGET_APP in header then Str(trim(header[TARGET_APP])) else Nil)
    && GENERIC_TYPE in header && header[GENERIC_TYPE] == Ascii("2")
    && CALL_TYPE in header && header[CALL_TYPE] == Ascii("sync")
    && REVISE in header && header[REVISE] == Ascii("true")
  }

  lemma {:induction false} HeaderFits(trim: GoString -> GoString, spec: RequestSpec)
    requires BaggageFits(trim, spec.baggage)
    ensures HeaderAgrees(trim, RequestHeader(trim, spec.methodName, UniqueName(trim, spec), spec.targetAppName), RequestFields(trim, spec))
  {
    HeaderEntries(trim, spec.methodName, UniqueName(trim, spec), spec.targetAppName);
    FixedEntries();
    hide UniqueName, RequestProps, RequestHeader, FixedProps, Ascii;
  }

  lemma {:induction false} FixedEntries()
    ensures FixedProps() == map[GENERIC_TYPE := Str(Ascii("2")), CALL_TYPE := Str(Ascii("sync")), REVISE := Str(Ascii("true"))]
  {
  }

  lemma {:induction false} HeaderEntries(trim: GoString -> GoString, methodName: GoString, uniqueName: GoString, targetAppName: GoString)
    ensures var h := RequestHeader(trim, methodName, uniqueName, targetAppName);
            && SERVICE in h && h[SERVICE] == uniqueName && TARGET_SERVICE in h && h[TARGET_SERVICE] == uniqueName
            && METHOD_NAME in h && h[METHOD_NAME] == methodName
            && GENERIC_TYPE in h && h[GENERIC_TYPE] == Ascii("2") && CALL_TYPE in h && h[CALL_TYPE] == Ascii("sync")
            && REVISE in h && h[REVISE] == Ascii("true")
            && (TARGET_APP in h <==> trim(targetAppName) != []) && (TARGET_APP in h ==> h[TARGET_APP] == targetAppName)
  {
    assert |SERVICE| == 7 && |METHOD_NAME| == 21 && |TARGET_SERVICE| == 24 && |TARGET_APP| == 20;
    assert |GENERIC_TYPE| == 22 && |CALL_TYPE| == 4 && |REVISE| == 14;
    hide Ascii;
  }

  /** The service by its name, its version, "1.0" where none is given, and its id where one is. */
  ghost predicate NamesService(trim: GoString -> GoString, spec: RequestSpec, name: GoString) {
    var service, version, id := trim(spec.service), trim(spec.version), trim(spec.uniqueId);
    && (version == [] && id == [] ==> name == service + Ascii(":1.0"))
    && (version != [] && id == [] ==> name == service + Ascii(":") + version)
    && (version == [] && id != [] ==> name == service + Ascii(":1.0:") + id)
    && (version != [] && id != [] ==> name == service + Ascii(":") + version + Ascii(":") + id)
  }

  lemma {:induction false} UniqueNameSays(trim: GoString -> GoString, spec: RequestSpec)
    ensures NamesService(trim, spec, UniqueName(trim, spec))
  {
    assert Ascii(":1.0") == Ascii(":") + Ascii("1.0");
    assert Ascii(":1.0:") == Ascii(":") + Ascii("1.0") + Ascii(":");
    var service, id := trim(spec.service), trim(spec.uniqueId);
    assert service + (Ascii(":") + Ascii("1.0")) == service + Ascii(":") + Ascii("1.0");
    assert service + (Ascii(":") + Ascii("1.0") + Ascii(":")) + id == service + Ascii(":") + Ascii("1.0") + (Ascii(":") + id);
    assert service + Ascii(":") + trim(spec.version) + Ascii(":") + id == service + Ascii(":") + trim(spec.version) + (Ascii(":") + id);
  }

  function EffectiveVersion(trim: GoString -> GoString, spec: RequestSpec): GoString {
    if trim(spec.version) == [] then Ascii("1.0") else trim(spec.version)
  }

  predicate ColonFree(s: GoString) {
    forall i | 0 <= i < |s| :: s[i] != ':' as int
  }

  lemma {:induction false} CutAtColon(a: GoString, x: GoString, b: GoString, y: GoString)
    requires ColonFree(a) && ColonFree(b) && a + [':' as int] + x == b + [':' as int] + y
    ensures a == b && x == y
  {
    var l, r := a + [':' as int] + x, b + [':' as int] + y;
    assert l[|a|] == ':' as int && r[|b|] == ':' as int;
    assert forall i | 0 <= i < |a| :: l[i] == a[i];
    assert forall i | 0 <= i < |b| :: r[i] == b[i];
    assert |a| == |b|;
    assert a == l[..|a|] && b == r[..|b|];
    assert x == l[|a| + 1..] && y == r[|b| + 1..];
  }

  /** Different services have different names, as long as colons only come between the parts. */
  lemma {:induction false} NamesApart(trim: GoString -> GoString, a: RequestSpec, b: RequestSpec, name: GoString)
    requires NamesService(trim, a, name) && NamesService(trim, b, name)
    requires ColonFree(trim(a.service)) && ColonFree(trim(a.version)) && ColonFree(trim(a.uniqueId))
    requires ColonFree(trim(b.service)) && ColonFree(trim(b.version)) && ColonFree(trim(b.uniqueId))
    ensures trim(a.service) == trim(b.service) && EffectiveVersion(trim, a) == EffectiveVersion(trim, b)
    ensures trim(a.uniqueId) == trim(b.uniqueId)
  {
    var restA := AfterService(trim, a, name);
    var restB := AfterService(trim, b, name);
    CutAtColon(trim(a.service), restA, trim(b.service), restB);
    RestTold(EffectiveVersion(trim, a), trim(a.uniqueId), EffectiveVersion(trim, b), trim(b.uniqueId));
  }

  lemma {:induction false} AfterService(trim: GoString -> GoString, a: RequestSpec, name: GoString) returns (rest: GoString)
    requires NamesService(trim, a, name)
    ensures name == trim(a.service) + [':' as int] + rest
    ensures rest == VersionAndId(EffectiveVersion(trim, a), trim(a.uniqueId))
    ensures ColonFree(trim(a.version)) ==> ColonFree(EffectiveVersion(trim, a))
  {
    rest := VersionAndId(EffectiveVersion(trim, a), trim(a.uniqueId));
    UniqueNameSays(trim, a);
    assert Ascii(":") == [':' as int];
    assert name == UniqueName(trim, a);
  }

  function VersionAndId(version: GoString, id: GoString): GoString {
    version + if id == [] then [] else [':' as int] + id
  }

  lemma {:induction false} RestTold(v: GoString, i: GoString, w: GoString, j: GoString)
    requires ColonFree(v) && ColonFree(i) && ColonFree(w) && ColonFree(j) && VersionAndId(v, i) == VersionAndId(w, j)
    ensures v == w && i == j
  {
    assert v + [] == v && w + [] == w;
    assert i != [] ==> VersionAndId(v, i)[|v|] == ':' as int;
    assert j != [] ==> VersionAndId(w, j)[|w|] == ':' as int;
    if i != [] && j != [] {
      assert v + [':' as int] + i == VersionAndId(v, i) && w + [':' as int] + j == VersionAndId(w, j);
      CutAtColon(v, i, w, j);
    }
  }

  datatype EncodedRequest = EncodedRequest(header: map<GoString, GoString>, content: seq<byte>, uniqueName: GoString)

  method BuildGenericRequest(trim: GoString -> GoString, spec: RequestSpec) returns (request: Option<EncodedRequest>)
    ensures request.Some? <==> Content(trim, spec).Some?
    ensures request.Some? ==>
              && request.value.content == Content(trim, spec).value
              && NamesService(trim, spec, request.value.uniqueName)
              && HeaderAgrees(trim, request.value.header, RequestFields(trim, spec))
  {
    hide RequestProps, FixedProps, FieldNames, RequestClass, UniqueName, Prepare, BaggageFits, EncodeObject, EncodeSeq;
    hide RequestHeader, HeaderAgrees;
    if trim(spec.service) == [] {
      return None;
    }
    if trim(spec.methodName) == [] {
      return None;
    }
    if |spec.paramTypes| != |spec.args| {
      return None;
    }
    var uniqueName := UniqueName(trim, spec);
    var header := RequestHeader(trim, spec.methodName, uniqueName, spec.targetAppName);
    var args := PrepareArgs(trim, spec.args);
    var props := AddRequestBaggage(trim, spec.baggage);
    if props.None? {
      return None;
    }
    var targetAppName := if trim(spec.targetAppName) == [] then Nil else Str(trim(spec.targetAppName));
    var fields := [targetAppName, Str(spec.methodName), Str(uniqueName), StringMap(props.value), Strings(spec.paramTypes)];
    assert fields == RequestFields(trim, spec);
    HeaderFits(trim, spec);
    UniqueNameSays(trim, spec);
    hide RequestFields, PrepareArgs, NamesService;
    var w := new Writer();
    var ok := w.WriteObject(RequestClass(), FieldNames(), fields, Slice(fields));
    if !ok {
      return None;
    }
    ghost var encoded := EncodeObject(Slice(fields), RequestClass(), FieldNames(), fields, map[]).value;
    assert [] + encoded.bytes == encoded.bytes;
    ok := w.WriteAll(args, Slice(args));
    return if ok then Some(EncodedRequest(header, w.buf, uniqueName)) else None;
  }

  // ------------------------------------------------------------------
  // Reading it back

  /** n values, one readValue after another on the same reader. */
  ghost function ReadStream(inp: Input, s: DState, n: nat): (r: R<seq<GoVal>>)
    requires Valid(inp, s)
    ensures Safe(inp, s, r)
    ensures r.Ok? ==> |r.v| == n
    decreases n
  {
    if n == 0 then Ok([], s) else
    var (v, s1) :- ReadValue(inp, s);
    var (vs, s2) :- ReadStream(inp, s1, n - 1);
    Ok([v] + vs, s2)
  }

  lemma {:induction false} StreamReadsBack(inp: Input, s: DState, ctx: Value, vs: seq<Value>, defs: Defs, e: Encoded, n: Need)
    requires Below(ctx, vs) && EncodeSeq(ctx, vs, defs) == Some(e)
    requires n == SeqNeed(inp.limits, ctx, vs, defs)
    requires Ready(inp, s, defs, e, n)
    ensures ReadStream(inp, s, |vs|).Ok?
    ensures var r := ReadStream(inp, s, |vs|);
            Advanced(s, r.st, e, n) && RepAll(r.st.heap, |s.heap|, |r.st.heap|, r.v, vs)
    decreases |vs|
  {
    hide *;
    ReadyValid(inp, s, defs, e, n);
    if vs == [] {
      NoValues(inp, s, ctx, defs);
      AdvancedNothing(s, defs);
      RepAllEmpty(s.heap);
    } else {
      HeadReady(inp, s, ctx, vs, defs, e, n);
      BelowParts(ctx, vs);
      var e0, n0 := Encode(vs[0], defs).value, NeedOf(inp.limits, vs[0], defs);
      var e1, n1 := EncodeSeq(ctx, vs[1..], e0.defs).value, SeqNeed(inp.limits, ctx, vs[1..], e0.defs);
      ValueReadsBack(inp, s, vs[0], defs, e0, n0);
      ValueRead(inp, s, e0, n0, Image(vs[0]));
      var r0 := ReadValue(inp, s);
      TailReady(inp, s, r0.st, defs, e, n, e0, n0, e1, n1);
      StreamReadsBack(inp, r0.st, ctx, vs[1..], e0.defs, e1, n1);
      var r1 := StreamTurn(inp, s, |vs|);
      AdvancedBoth(s, r0.st, r0.st, r1.st, e0, n0, e1, n1, e);
      assert [] + [r0.v] == ([r0.v] + r1.v)[..1] && ([r0.v] + r1.v)[1..] == r1.v && ([r0.v] + r1.v)[0..] == [r0.v] + r1.v;
      RepAllStep(r0.st.heap, r1.st.heap, |s.heap|, [], r0.v, [r0.v] + r1.v, vs);
    }
  }

  lemma {:induction false} NoValues(inp: Input, s: DState, ctx: Value, defs: Defs)
    requires Valid(inp, s)
    ensures ReadStream(inp, s, 0) == Ok([], s)
    ensures Below(ctx, []) && EncodeSeq(ctx, [], defs) == Some(Encoded([], defs))
    ensures SeqNeed(inp.limits, ctx, [], defs) == Need(0, 0, 0, true, {})
  {
    hide Valid;
  }

  lemma {:induction false} StreamTurn(inp: Input, s: DState, n: nat) returns (r1: R<seq<GoVal>>)
    requires Valid(inp, s) && n > 0 && ReadValue(inp, s).Ok?
    ensures Valid(inp, ReadValue(inp, s).st) && r1 == ReadStream(inp, ReadValue(inp, s).st, n - 1)
    ensures r1.Ok? ==>
              && ReadStream(inp, s, n) == Ok([ReadValue(inp, s).v] + r1.v, r1.st)
              && |r1.v| == n - 1 && ReadValue(inp, s).st.heap <= r1.st.heap
  {
    hide ReadValue, Valid;
    r1 := ReadStream(inp, ReadValue(inp, s).st, n - 1);
  }

  const FRESH: DState := DState(0, 0, [], [], [], [])

  /** What the reader needs for the whole content. */
  ghost function ContentNeed(l: Limits, trim: GoString -> GoString, spec: RequestSpec): Need
    requires BaggageFits(trim, spec.baggage)
  {
    var fields, args := RequestFields(trim, spec), PrepareArgs(trim, spec.args);
    var defs := match EncodeObject(Slice(fields), RequestClass(), FieldNames(), fields, map[])
      case Some(e) => e.defs
      case None => map[];
    Both(ObjectNeed(l, Slice(fields), RequestClass(), FieldNames(), fields, map[]),
         SeqNeed(l, Slice(args), args, defs))
  }

  /** The definitions the whole content uses. */
  ghost function ContentDefs(trim: GoString -> GoString, spec: RequestSpec): Defs
    requires BaggageFits(trim, spec.baggage)
  {
    var fields, args := RequestFields(trim, spec), PrepareArgs(trim, spec.args);
    match EncodeObject(Slice(fields), RequestClass(), FieldNames(), fields, map[])
    case Some(e) =>
      (match EncodeSeq(Slice(args), args, e.defs)
       case Some(rest) => rest.defs
       case None => e.defs)
    case None => map[]
  }

  ghost function FieldImages(trim: GoString -> GoString, spec: RequestSpec): map<GoString, Tree>
    requires BaggageFits(trim, spec.baggage)
  {
    var vs := RequestFields(trim, spec);
    map[FieldNames()[0] := Image(vs[0]), FieldNames()[1] := Image(vs[1]), FieldNames()[2] := Image(vs[2]),
        FieldNames()[3] := Image(vs[3]), FieldNames()[4] := Image(vs[4])]
  }

  /** Which field says what. */
  ghost predicate FieldsSay(trim: GoString -> GoString, spec: RequestSpec, images: map<GoString, Tree>)
    requires BaggageFits(trim, spec.baggage)
  {
    && images.Keys == {APP_FIELD, METHOD_FIELD, SERVICE_FIELD, PROPS_FIELD, TYPES_FIELD}
    && images[APP_FIELD] == (if trim(spec.targetAppName) == [] then TLeaf(GNil) else TLeaf(GString(trim(spec.targetAppName))))
    && images[METHOD_FIELD] == TLeaf(GString(spec.methodName))
    && (exists name :: NamesService(trim, spec, name) && images[SERVICE_FIELD] == TLeaf(GString(name)))
    && images[PROPS_FIELD] == Image(StringMap(RequestProps(trim, spec.baggage)))
    && images[TYPES_FIELD] == Image(Strings(spec.paramTypes))
  }

  /** The class of the request object, under its package. */
  lemma {:induction false} ClassSays()
    ensures RequestClass() == Ascii("com.alipay.sofa.rpc.core.request.") + Ascii("SofaRequest")
  {
    AsciiOn("com.alipay.sofa.rpc.core.request.", "SofaRequest");
  }

  lemma {:induction false} AsciiOn(s: string, t: string)
    requires (forall i | 0 <= i < |s| :: s[i] as int < 128) && (forall i | 0 <= i < |t| :: t[i] as int < 128)
    ensures (forall i | 0 <= i < |s + t| :: (s + t)[i] as int < 128) && Ascii(s + t) == Ascii(s) + Ascii(t)
  {
  }

  lemma {:induction false} FieldImagesSay(trim: GoString -> GoString, spec: RequestSpec)
    requires BaggageFits(trim, spec.baggage)
    ensures FieldsSay(trim, spec, FieldImages(trim, spec))
  {
    UniqueNameSays(trim, spec);
    FieldNamesDistinct();
    hide RequestProps, UniqueName, NamesService, Ascii;
    var names := FieldNames();
    assert names[0] != names[1] && names[0] != names[2] && names[0] != names[3] && names[0] != names[4];
    assert names[1] != names[2] && names[1] != names[3] && names[1] != names[4];
    assert names[2] != names[3] && names[2] != names[4] && names[3] != names[4];
  }

  /** The properties: the three fixed ones and, where there is baggage, the baggage. */
  lemma {:induction false} PropsSay(trim: GoString -> GoString, baggage: map<GoString, GoString>)
    requires BaggageFits(trim, baggage)
    ensures var props := RequestProps(trim, baggage);
            && Ascii("sofa_head_generic_type") in props && props[Ascii("sofa_head_generic_type")] == Str(Ascii("2"))
            && Ascii("type") in props && props[Ascii("type")] == Str(Ascii("sync"))
            && Ascii("generic.revise") in props && props[Ascii("generic.revise")] == Str(Ascii("true"))
            && (Ascii("rpc_req_baggage") in props <==> baggage != map[])
            && |props| == if baggage == map[] then 3 else 4
    ensures baggage != map[] ==>
              var carried := RequestProps(trim, baggage)[Ascii("rpc_req_baggage")];
              && carried.StringMap? && forall k | k in baggage :: trim(k) in carried.entries && carried.entries[trim(k)] == Str(baggage[k])
  {
    FixedEntries();
    assert |GENERIC_TYPE| == 22 && |CALL_TYPE| == 4 && |REVISE| == 14 && |BaggageKey()| == 15;
    var fixed := FixedProps();
    hide Ascii, FixedProps;
    assert fixed.Keys == {GENERIC_TYPE, CALL_TYPE, REVISE};
    assert |fixed.Keys| == 3;
    if baggage != map[] {
      var props := RequestProps(trim, baggage);
      assert props.Keys == fixed.Keys + {BaggageKey()};
      assert |props| == |props.Keys|;
    }
  }

  lemma {:induction false} FieldNamesDistinct()
    ensures Distinct(FieldNames())
  {
    assert |FieldNames()[0]| == 13 && |FieldNames()[1]| == 10 && |FieldNames()[2]| == 23;
    assert |FieldNames()[3]| == 12 && |FieldNames()[4]| == 13;
    assert FieldNames()[0][0] == 't' as int && FieldNames()[4][0] == 'm' as int;
  }

  /** What 1 + n reads of a request must give. */
  ghost predicate RequestRead(inp: Input, trim: GoString -> GoString, spec: RequestSpec, r: R<seq<GoVal>>)
    requires BaggageFits(trim, spec.baggage)
  {
    && r.Ok? && |r.v| == 1 + |spec.args|
    && r.st.offset == |inp.data| && r.st.depth == 0
    && Rep(r.st.heap, 0, |r.st.heap|, r.v[0], ObjectImage(RequestClass(), FieldNames(), FieldImages(trim, spec)))
    && RepAll(r.st.heap, 0, |r.st.heap|, r.v[1..], PrepareArgs(trim, spec.args))
  }

  lemma {:induction false} FreshValid(inp: Input)
    requires inp.limits.Positive()
    ensures Valid(inp, FRESH)
  {
  }

  /** THE WHOLE REQUEST. A fresh reader with room for the content of a request gets, from
      1 + n readValue calls, the SofaRequest object with its five fields and then each
      prepared argument, and stands exactly at the end. */
  lemma {:induction false} RequestReadsBack(inp: Input, trim: GoString -> GoString, spec: RequestSpec)
    requires Content(trim, spec) == Some(inp.data) && inp.limits.Positive()
    requires Room(inp, FRESH, ContentNeed(inp.limits, trim, spec), ContentDefs(trim, spec))
    ensures Valid(inp, FRESH) && RequestRead(inp, trim, spec, ReadStream(inp, FRESH, 1 + |spec.args|))
  {
    hide EncodeObject, EncodeSeq, ObjectNeed, SeqNeed, RequestFields, Prepare, Rep, RepAll, Image, ObjectImage, ReadValue, FieldImages;
    hide At, Cut, Valid, FieldNames, RequestClass, BaggageFits;
    var fields, args := RequestFields(trim, spec), PrepareArgs(trim, spec.args);
    var e := EncodeObject(Slice(fields), RequestClass(), FieldNames(), fields, map[]).value;
    var rest := EncodeSeq(Slice(args), args, e.defs).value;
    FreshValid(inp);
    ContentParts(inp, e.bytes, args, e.defs, rest);
    ObjectThenArgs(inp, trim, spec, e, rest);
  }

  lemma {:induction false} ObjectThenArgs(inp: Input, trim: GoString -> GoString, spec: RequestSpec, e: Encoded, rest: Encoded)
    requires BaggageFits(trim, spec.baggage) && Valid(inp, FRESH)
    requires EncodeObject(Slice(RequestFields(trim, spec)), RequestClass(), FieldNames(), RequestFields(trim, spec), map[]) == Some(e)
    requires EncodeSeq(Slice(PrepareArgs(trim, spec.args)), PrepareArgs(trim, spec.args), e.defs) == Some(rest)
    requires At(inp, 0, e.bytes) && Cut(inp, |e.bytes|)
    requires At(inp, |e.bytes|, rest.bytes) && Cut(inp, |e.bytes| + |rest.bytes|) && |inp.data| == |e.bytes| + |rest.bytes|
    requires Room(inp, FRESH, ContentNeed(inp.limits, trim, spec), rest.defs)
    ensures RequestRead(inp, trim, spec, ReadStream(inp, FRESH, 1 + |spec.args|))
  {
    hide EncodeObject, EncodeSeq, ObjectNeed, SeqNeed, RequestFields, Prepare, Rep, RepAll, Image, ObjectImage, ReadValue, FieldImages;
    hide At, Cut, Valid, FieldNames, RequestClass, BaggageFits, Coupled;
    var fields, args := RequestFields(trim, spec), PrepareArgs(trim, spec.args);
    var n := ObjectNeed(inp.limits, Slice(fields), RequestClass(), FieldNames(), fields, map[]);
    var image := ObjectImage(RequestClass(), FieldNames(), FieldImages(trim, spec));
    FieldNamesDistinct();
    FieldsMatch(trim, spec);
    CoupledEmpty();
    ObjectReadsBack(inp, FRESH, Slice(fields), RequestClass(), FieldNames(), fields, map[], e, n, FieldImages(trim, spec));
    var r0 := ReadValue(inp, FRESH);
    StreamReadsBack(inp, r0.st, Slice(args), args, e.defs, rest, SeqNeed(inp.limits, Slice(args), args, e.defs));
    var r1 := ReadStream(inp, r0.st, |args|);
    RepFrame(r0.st.heap, r1.st.heap, 0, |r0.st.heap|, 0, |r1.st.heap|, r0.v, image);
    RepAllFrame(r1.st.heap, r1.st.heap, |r0.st.heap|, |r1.st.heap|, 0, |r1.st.heap|, r1.v, args);
    assert ([r0.v] + r1.v)[1..] == r1.v;
  }

  lemma {:induction false} CoupledEmpty()
    ensures Coupled(map[], [])
  {
  }

  lemma {:induction false} FieldsMatch(trim: GoString -> GoString, spec: RequestSpec)
    requires BaggageFits(trim, spec.baggage)
    ensures Matches(FieldImages(trim, spec), FieldNames(), RequestFields(trim, spec))
  {
    hide Image, RequestFields;
    FieldNamesDistinct();
    var ks := FieldNames();
    assert ks[0] in ks && ks[1] in ks && ks[2] in ks && ks[3] in ks && ks[4] in ks;
  }

  lemma {:induction false} ContentParts(inp: Input, first: seq<byte>, args: seq<Value>, defs: Defs, rest: Encoded)
    requires inp.data == first + rest.bytes
    requires EncodeSeq(Slice(args), args, defs) == Some(rest)
    ensures At(inp, 0, first) && Cut(inp, |first|) && At(inp, |first|, rest.bytes) && Cut(inp, |inp.data|)
  {
    assert inp.data[0..|inp.data|] == inp.data;
    AtParts(inp, 0, first, rest.bytes);
    if args != [] {
      EncodingStartsAscii(args[0], defs);
    }
  }

  /** A value on its own: a new reader over what a new writer wrote for it returns its image
      and stops at the end, whenever its sizes and names fit the reader's limits. */
  lemma {:induction false} WrittenIsRead(inp: Input, v: Value)
    requires Encode(v, map[]).Some? && Encode(v, map[]).value.bytes == inp.data && inp.limits.Positive()
    requires Room(inp, FRESH, NeedOf(inp.limits, v, map[]), Encode(v, map[]).value.defs)
    ensures Valid(inp, FRESH) && ReadValue(inp, FRESH).Ok?
    ensures var r := ReadValue(inp, FRESH);
            && r.st.offset == |inp.data| && r.st.depth == 0
            && Rep(r.st.heap, 0, |r.st.heap|, r.v, Image(v))
  {
    hide Encode, NeedOf, Rep, Image, ReadValue, Valid, Room;
    FreshValid(inp);
    CoupledEmpty();
    assert inp.data[0..0 + |inp.data|] == inp.data;
    ValueReadsBack(inp, FRESH, v, map[], Encode(v, map[]).value, NeedOf(inp.limits, v, map[]));
  }
}

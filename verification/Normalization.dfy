/** Arguments brought into the form their declared types ask for. Where no type is declared
    a value's own "@type" says what it is. Type names are resolved with budget to spare, so
    by the plain functions of BinaryNames. */
module Normalization {
  import opened Options
  import opened TypeLanguage
  import opened BinaryNames

  datatype Value =
    | Null
    | Atom(id: int)
    | Str(s: string)
    | List(items: seq<Value>)
    | Map(entries: map<string, Value>)

  datatype Role = Passthrough | Container | UserType | Unknown

  /** The store, and what is known of type names: the declared types of a class's fields,
      enums, the role a name has, which containers are maps, what accepts what, and how the
      scalars are read. */
  datatype Env = Env(
    store: Store,
    fields: string -> map<string, string>,
    isEnum: string -> bool,
    role: string -> Role,
    isMap: string -> bool,
    assignable: (string, string) -> bool,
    coerce: (string, Value) -> Value,
    decimal: Value -> Option<string>)

  /** Endless: the program calls itself with the same arguments for ever. */
  datatype Outcome = Ok(v: Value) | Rejected | Endless

  /** The type a map says it has, if it says so. */
  function Explicit(m: map<string, Value>): Option<string> {
    if TYPE_KEY in m && m[TYPE_KEY].Str? && Trim(m[TYPE_KEY].s) != "" then Some(Trim(m[TYPE_KEY].s)) else None
  }

  /** The explicit type may stand where the declared one does. */
  predicate Admissible(env: Env, declared: string, actual: string) {
    var d, a := StoreName(env.store, RawName(declared)), StoreName(env.store, RawName(actual));
    d == "" || a == "" || d == OBJECT || d == a || env.assignable(a, d)
  }

  const BIG_DECIMAL: string := "java.math.BigDecimal"
  const BIG_INTEGER: string := "java.math.BigInteger"

  predicate IsDecimal(base: string) {
    base == BIG_DECIMAL || base == BIG_INTEGER
  }

  function DecimalObject(base: string, text: string): Value {
    Map(map[TYPE_KEY := Str(base), "value" := Str(text)])
  }

  function Scalar(env: Env, base: string, v: Value): Outcome {
    if IsDecimal(base) then
      match v
      case Map(m) =>
        if Explicit(m).Some? && Explicit(m).value != base then Rejected
        else if "value" in m && env.decimal(m["value"]).Some? then Ok(DecimalObject(base, env.decimal(m["value"]).value))
        else Ok(v)
      case _ => if env.decimal(v).Some? then Ok(DecimalObject(base, env.decimal(v).value)) else Ok(v)
    else if v.Atom? || v.Str? then Ok(env.coerce(base, v))
    else Ok(v)
  }

  function EnumObject(base: string, name: string): Value {
    Map(map["name" := Str(name)][TYPE_KEY := Str(base)])
  }

  function Enum(env: Env, base: string, v: Value): Value {
    match v
    case Str(s) => EnumObject(WireName(env.store, base), s)
    case Map(m) =>
      Map(m[TYPE_KEY := Str(WireName(env.store, if Explicit(m).Some? then Explicit(m).value else base))])
    case _ => v
  }

  function FieldType(env: Env, typeName: string, field: string): Option<TypeSpec> {
    var known := StoreName(env.store, typeName);
    if known in env.store && field in env.fields(known) then Some(Parse(env.fields(known)[field])) else None
  }

  /** The value is normalized by what it says itself, and not by the type. */
  predicate GoesLoose(env: Env, t: TypeSpec, v: Value) {
    var e := Effective(t);
    || t == ZERO || e.base == "" || e.base == OBJECT
    || (e.arrayDepth == 0 && !env.isEnum(e.base) &&
        match env.role(e.base)
        case Container => if env.isMap(e.base) then v.Map? && |e.args| < 2 else v.List? && |e.args| == 0
        case Unknown => true
        case _ => false)
  }

  /** All or nothing. */
  function Collect(rs: seq<Outcome>): Outcome {
    if exists i :: 0 <= i < |rs| && rs[i].Endless? then Endless
    else if exists i :: 0 <= i < |rs| && rs[i].Rejected? then Rejected
    else Ok(List(seq(|rs|, i requires 0 <= i < |rs| => if rs[i].Ok? then rs[i].v else Null)))
  }

  function CollectMap(rs: map<string, Outcome>): Outcome {
    if exists k :: k in rs && rs[k].Endless? then Endless
    else if exists k :: k in rs && rs[k].Rejected? then Rejected
    else Ok(Map(map k | k in rs :: if rs[k].Ok? then rs[k].v else Null))
  }

  function ForType(env: Env, t: TypeSpec, v: Value): Outcome
    decreases v, 4
  {
    if v.Null? then Ok(Null)
    else if GoesLoose(env, t, v) then Loose(env, v)
    else Typed(env, Effective(t), v)
  }

  function Loose(env: Env, v: Value): Outcome
    decreases v, 3
  {
    match v
    case Map(m) =>
      if Explicit(m).Some? then
        var t := Parse(Explicit(m).value);
        if GoesLoose(env, t, v) then Endless else Typed(env, Effective(t), v)
      else LooseEntries(env, v)
    case List(_) => LooseItems(env, v)
    case _ => Ok(v)
  }

  function Typed(env: Env, e: TypeSpec, v: Value): Outcome
    requires !GoesLoose(env, e, v) && e.wildcard.NoWildcard?
    decreases v, 2
  {
    if e.arrayDepth > 0 then
      (match v
       case List(_) => ForItems(env, e.(arrayDepth := e.arrayDepth - 1), v)
       case _ => Rejected)
    else if env.isEnum(e.base) then Ok(Enum(env, e.base, v))
    else match env.role(e.base)
      case Container =>
        if env.isMap(e.base) then
          (match v
           case Map(_) => ForEntries(env, e.args[1], v)
           case _ => Rejected)
        else
          (match v
           case List(_) => ForItems(env, e.args[0], v)
           case _ => Rejected)
      case Passthrough => Scalar(env, e.base, v)
      case UserType =>
        if e.base !in env.store && v.Str? then Ok(EnumObject(e.base, v.s)) else Object(env, e.base, v)
  }

  function ForItems(env: Env, t: TypeSpec, v: Value): Outcome
    requires v.List?
    decreases v, 0
  {
    Collect(seq(|v.items|, i requires 0 <= i < |v.items| => ForType(env, t, v.items[i])))
  }

  function ForEntries(env: Env, t: TypeSpec, v: Value): Outcome
    requires v.Map?
    decreases v, 0
  {
    CollectMap(map k | k in v.entries :: ForType(env, t, v.entries[k]))
  }

  function LooseItems(env: Env, v: Value): Outcome
    requires v.List?
    decreases v, 0
  {
    Collect(seq(|v.items|, i requires 0 <= i < |v.items| => Loose(env, v.items[i])))
  }

  function LooseEntries(env: Env, v: Value): Outcome
    requires v.Map?
    decreases v, 0
  {
    CollectMap(map k | k in v.entries :: Loose(env, v.entries[k]))
  }

  function Fields(env: Env, typeName: string, v: Value): Outcome
    requires v.Map?
    decreases v, 0
  {
    CollectMap(map k | k in v.entries && k != TYPE_KEY :: Entry(env, typeName, k, v.entries[k]))
  }

  function Object(env: Env, base: string, v: Value): Outcome
    decreases v, 1
  {
    match v
    case Map(m) =>
      if Explicit(m).Some? && !Admissible(env, base, Explicit(m).value) then Rejected
      else
        var typeName := if Explicit(m).Some? then Explicit(m).value else base;
        var rest := Fields(env, typeName, v);
        if rest.Ok? && rest.v.Map? then Ok(Map(rest.v.entries[TYPE_KEY := Str(WireName(env.store, typeName))])) else rest
    case _ => Rejected
  }

  function Entry(env: Env, typeName: string, k: string, v: Value): Outcome
    decreases v, 5
  {
    match FieldType(env, typeName, k)
    case Some(t) => ForType(env, t, v)
    case None => Loose(env, v)
  }

  // ------------------------------------------------------------------
  // What is asked of the store and the scalars

  /** The text is a class name and nothing more. */
  ghost predicate PlainName(s: string) {
    Parse(s) == TypeSpec(s, [], 0, NoWildcard) && Trim(s) == s && s != ""
  }

  /** Classes have proper names, their binary names lead back to them, and the class of all
      objects and the decimals are not among them. */
  ghost predicate SoundNames(env: Env) {
    && Regular(env.store) && (forall known | known in env.store :: AllNameChars(known))
    && OBJECT !in env.store && BIG_DECIMAL !in env.store && BIG_INTEGER !in env.store
  }

  /** Reading a scalar that has been read changes nothing, and text is read as a number or
      truth value or stays as it is. */
  ghost predicate SoundScalars(env: Env) {
    && (forall b: string, v: Value | v.Atom? || v.Str? ::
          && (env.coerce(b, v).Atom? || (v.Str? && env.coerce(b, v) == v))
          && env.coerce(b, env.coerce(b, v)) == env.coerce(b, v))
    && (forall v: Value | env.decimal(v).Some? :: env.decimal(Str(env.decimal(v).value)) == env.decimal(v))
  }

  ghost predicate Sound(env: Env) {
    SoundNames(env) && SoundScalars(env)
  }

  // ------------------------------------------------------------------
  // Names

  ghost predicate Tidy(t: TypeSpec) {
    Trim(t.base) == t.base && forall i | 0 <= i < |t.args| :: Tidy(t.args[i])
  }

  lemma {:induction false} BoundedTidy(t: TypeSpec, w: Wildcard)
    requires Tidy(t)
    ensures Tidy(Bounded(t, w))
  {
    ObjectTight();
    hide Trim;
  }

  lemma {:induction false} PlainTidy(s: string)
    requires forall i | 0 <= i < |ParsePlain(s).args| :: Tidy(ParsePlain(s).args[i])
    ensures Tidy(ParsePlain(s))
  {
    var t := Trim(StripArrays(s).0);
    TrimTwice(t[..IndexOf(t, '<')]);
    hide Trim, ArgsOf, StripArrays, Parse;
  }

  /** Every parsed type is tidy. */
  lemma {:induction false} ParseTidy(text: string)
    ensures Tidy(Parse(text))
    decreases |text|, 1
  {
    var s := Trim(text);
    ObjectTight();
    hide Trim, ParsePlain, Tidy, PlainName;
    if s == "" {
      assert Tidy(ZERO) by { ZeroTidy(); }
    } else if s == "?" {
      assert Tidy(TypeSpec(OBJECT, [], 0, Any)) by { ZeroTidy(); }
    } else if EXTENDS <= s {
      ParseTidy(s[|EXTENDS|..]);
      BoundedTidy(Parse(s[|EXTENDS|..]), Extends);
    } else if SUPER <= s {
      ParseTidy(s[|SUPER|..]);
      BoundedTidy(Parse(s[|SUPER|..]), Super);
    } else {
      ArgsTidy(s);
      PlainTidy(s);
    }
  }

  lemma {:induction false} ZeroTidy()
    ensures Tidy(ZERO) && Tidy(TypeSpec(OBJECT, [], 0, Any))
  {
    ObjectTight();
    hide Trim;
  }

  lemma {:induction false} ArgsTidy(s: string)
    ensures forall i | 0 <= i < |ParsePlain(s).args| :: Tidy(ParsePlain(s).args[i])
    decreases |s|, 0
  {
    hide Trim, ArgsOf, StripArrays, Parse, Tidy;
    var t := Trim(StripArrays(s).0);
    forall i | 0 <= i < |ArgsOf(t)| ensures Tidy(Parse(ArgsOf(t)[i])) {
      ParseTidy(ArgsOf(t)[i]);
    }
  }

  lemma {:induction false} ObjectTight()
    ensures Trim(OBJECT) == OBJECT && Trim("") == "" && PlainName(OBJECT)
  {
    assert AllNameChars(OBJECT);
    NameCharsPlain(OBJECT);
  }

  lemma {:induction false} NameCharsPlain(s: string)
    requires AllNameChars(s)
    ensures PlainName(s)
  {
    NamesAreTight(s);
    assert Name(s) by {
      forall i | 0 <= i < |s| ensures !Reserved(s[i]) && !IsSpace(s[i]) { assert NameChar(s[i]); }
    }
    var t := TypeSpec(s, [], 0, NoWildcard);
    ParseFormat(t);
    FormatText(t);
    assert Format(t) == s;
  }

  lemma {:induction false} RawPlain(s: string)
    requires PlainName(s)
    ensures RawName(s) == s
  {
  }

  ghost predicate CharsKept(s: string, r: string) {
    |r| == |s| && forall i | 0 <= i < |s| :: NameChar(r[i]) == NameChar(s[i])
  }

  lemma {:induction false} CharsKeptOn(s: string, r: string, c: char, d: char)
    requires CharsKept(s, r) && NameChar(c) == NameChar(d)
    ensures CharsKept(s + [c], r + [d])
  {
    hide NameChar;
  }

  /** Reading a dollar as a dot leaves all other characters. */
  lemma {:induction false} DottedChars(s: string)
    requires Dollars(s) > 0
    ensures CharsKept(s, DottedOnce(s))
    decreases |s|
  {
    var n := |s| - 1;
    assert s == s[..n] + [s[n]];
    if s[n] == '$' {
      assert DottedOnce(s) == s[..n] + ['.'];
      CharsKeptOn(s[..n], s[..n], '$', '.');
    } else {
      assert Dollars(s[..n]) > 0 && DottedOnce(s) == DottedOnce(s[..n]) + [s[n]];
      hide DottedOnce, Dollars, CharsKept, NameChar;
      DottedChars(s[..n]);
      CharsKeptOn(s[..n], DottedOnce(s[..n]), s[n], s[n]);
    }
  }

  lemma {:induction false} ConvertChars(s: string, k: nat)
    requires k <= Dollars(s)
    ensures CharsKept(s, Convert(s, k))
    decreases k
  {
    hide NameChar, DottedOnce, Dollars;
    if k > 0 {
      ConvertChars(s, k - 1);
      DottedChars(Convert(s, k - 1));
    }
  }

  /** Only proper names resolve to classes with proper names. */
  lemma {:induction false} ResolvesProper(store: Store, s: string)
    requires AllNameChars(Resolve(store, s))
    ensures AllNameChars(s)
  {
    ResolveMeans(store, s);
    hide Resolve;
    if Resolve(store, s) != s {
      var k :| ShortestKnown(store, s, k) && Resolve(store, s) == Convert(s, k);
      ConvertChars(s, k);
      forall i | 0 <= i < |s| ensures NameChar(s[i]) { assert NameChar(Convert(s, k)[i]); }
    }
  }

  /** A trimmed text leads to the same class as its wire name, which stays; and unless the text
      is its own wire name, both are class names and nothing more. */
  ghost predicate Settled(env: Env, s: string) {
    var w := WireName(env.store, s);
    && Trim(w) == w && w != "" && WireName(env.store, w) == w && StoreName(env.store, w) == StoreName(env.store, s)
    && (w == s || (PlainName(s) && PlainName(w) && w != OBJECT && !IsDecimal(w)))
  }

  lemma {:induction false} NameSettles(env: Env, s: string)
    requires SoundNames(env) && Trim(s) == s && s != ""
    ensures Settled(env, s)
  {
    var w, known := WireName(env.store, s), StoreName(env.store, s);
    WireNameStays(env.store, s);
    if BinaryName(env.store, known).Some? {
      BinaryProper(env, known);
      ResolvesProper(env.store, s);
      hide Regular, Resolve, Parse, BinaryName;
      NameCharsPlain(s);
      NameCharsPlain(w);
    }
  }

  lemma {:induction false} BinaryProper(env: Env, known: string)
    requires SoundNames(env) && BinaryName(env.store, known).Some?
    ensures var w := BinaryName(env.store, known).value;
            AllNameChars(w) && w != OBJECT && !IsDecimal(w) && Resolve(env.store, w) == known
  {
    BinaryResolves(env.store, known);
    BinaryChars(env.store, known);
    NoDollars();
    hide Regular, Resolve, Dollars;
    if Dollars(BinaryName(env.store, known).value) == 0 { BinaryIsOwn(env.store, known); }
  }

  lemma {:induction false} NoDollars()
    ensures Dollars(OBJECT) == Dollars(BIG_DECIMAL) == Dollars(BIG_INTEGER) == 0
  {
    assert '$' !in OBJECT && '$' !in BIG_DECIMAL && '$' !in BIG_INTEGER;
  }

  lemma {:induction false} BinaryChars(store: Store, known: string)
    requires Regular(store) && BinaryName(store, known).Some?
    ensures AllNameChars(BinaryName(store, known).value)
  {
  }

  /** A binary name without dollars is the class's own name. */
  lemma {:induction false} BinaryIsOwn(store: Store, known: string)
    requires Regular(store) && BinaryName(store, known).Some? && Dollars(BinaryName(store, known).value) == 0
    ensures BinaryName(store, known).value == known
  {
    var binary := BinaryName(store, known).value;
    var k :| LeadsBack(store, known, binary, k);
    hide Regular, BinaryName, Dollars;
  }

  /** A name admitted once is admitted under its wire name, as is the declared name itself. */
  lemma {:induction false} WireAdmissible(env: Env, base: string, n: string)
    requires Settled(env, n) && (n == base || Admissible(env, base, n))
    ensures Admissible(env, base, WireName(env.store, n))
    ensures Admissible(env, WireName(env.store, n), WireName(env.store, n))
  {
    var w := WireName(env.store, n);
    if w != n {
      RawPlain(n);
      RawPlain(w);
    }
    hide PlainName, StoreName, WireName, RawName;
  }

  lemma {:induction false} SameEntry(env: Env, n: string, k: string, v: Value)
    requires Settled(env, n)
    ensures Entry(env, WireName(env.store, n), k, v) == Entry(env, n, k, v)
  {
    hide ForType, Loose, PlainName, StoreName, WireName, Parse;
  }

  // ------------------------------------------------------------------
  // Collections

  lemma {:induction false} CollectedMap(rs: map<string, Outcome>, y: Value)
    ensures CollectMap(rs) == Ok(y) <==> y.Map? && y.entries.Keys == rs.Keys && forall k | k in rs :: rs[k] == Ok(y.entries[k])
  {
    if y.Map? && y.entries.Keys == rs.Keys && forall k | k in rs :: rs[k] == Ok(y.entries[k]) {
      assert CollectMap(rs).v.entries == y.entries;
    }
  }

  lemma {:induction false} Collected(rs: seq<Outcome>, y: Value)
    ensures Collect(rs) == Ok(y) <==> y.List? && |y.items| == |rs| && forall i | 0 <= i < |rs| :: rs[i] == Ok(y.items[i])
  {
    if y.List? && |y.items| == |rs| && forall i | 0 <= i < |rs| :: rs[i] == Ok(y.items[i]) {
      assert Collect(rs).v.items == y.items;
    }
  }

  lemma {:induction false} ItemsMean(env: Env, t: TypeSpec, v: Value, y: Value)
    requires v.List?
    ensures ForItems(env, t, v) == Ok(y) <==>
              y.List? && |y.items| == |v.items| && forall i | 0 <= i < |v.items| :: ForType(env, t, v.items[i]) == Ok(y.items[i])
    ensures LooseItems(env, v) == Ok(y) <==>
              y.List? && |y.items| == |v.items| && forall i | 0 <= i < |v.items| :: Loose(env, v.items[i]) == Ok(y.items[i])
  {
    hide Collect, ForType, Loose;
    Collected(seq(|v.items|, i requires 0 <= i < |v.items| => ForType(env, t, v.items[i])), y);
    Collected(seq(|v.items|, i requires 0 <= i < |v.items| => Loose(env, v.items[i])), y);
  }

  lemma {:induction false} EntriesMean(env: Env, t: TypeSpec, v: Value, y: Value)
    requires v.Map?
    ensures ForEntries(env, t, v) == Ok(y) <==>
              y.Map? && y.entries.Keys == v.entries.Keys
              && forall k | k in v.entries :: ForType(env, t, v.entries[k]) == Ok(y.entries[k])
    ensures LooseEntries(env, v) == Ok(y) <==>
              y.Map? && y.entries.Keys == v.entries.Keys && forall k | k in v.entries :: Loose(env, v.entries[k]) == Ok(y.entries[k])
  {
    hide CollectMap, ForType, Loose;
    CollectedMap(map k | k in v.entries :: ForType(env, t, v.entries[k]), y);
    CollectedMap(map k | k in v.entries :: Loose(env, v.entries[k]), y);
  }

  lemma {:induction false} FieldsMean(env: Env, typeName: string, v: Value, y: Value)
    requires v.Map?
    ensures Fields(env, typeName, v) == Ok(y) <==>
              y.Map? && y.entries.Keys == v.entries.Keys - {TYPE_KEY}
              && forall k | k in y.entries :: Entry(env, typeName, k, v.entries[k]) == Ok(y.entries[k])
  {
    hide CollectMap, Entry;
    CollectedMap(map k | k in v.entries && k != TYPE_KEY :: Entry(env, typeName, k, v.entries[k]), y);
  }

  // ------------------------------------------------------------------
  // Which values stay

  /** The value, normalized by the type, is left alone by the type. What decides it is found
      on the way down: a map that calls itself an enum has entries that are left raw the first
      time, and names a class that is an object the second time; a map that calls itself a map
      with typed values may have its own type turned into such a value; and text for a class
      that is not known is made an object of it. */
  ghost predicate SteadyFor(env: Env, t: TypeSpec, v: Value)
    decreases v, 4
  {
    v.Null? || if GoesLoose(env, t, v) then SteadyLoose(env, v) else SteadyTyped(env, Effective(t), v)
  }

  ghost predicate SteadyLoose(env: Env, v: Value)
    decreases v, 3, 1
  {
    match v
    case Map(m) =>
      if Explicit(m).Some? then SteadyExplicit(env, v) else forall k | k in m :: SteadyLoose(env, m[k])
    case List(s) => forall i | 0 <= i < |s| :: SteadyLoose(env, s[i])
    case _ => true
  }

  ghost predicate SteadyTyped(env: Env, e: TypeSpec, v: Value)
    requires !GoesLoose(env, e, v) && e.wildcard.NoWildcard?
    decreases v, 2
  {
    if e.arrayDepth > 0 then SteadyItems(env, e.(arrayDepth := e.arrayDepth - 1), v)
    else if env.isEnum(e.base) then true
    else
      match env.role(e.base)
      case Container =>
        if env.isMap(e.base) then v.Map? ==> SteadyEntries(env, e.args[1], v)
        else v.List? ==> SteadyItems(env, e.args[0], v)
      case Passthrough => true
      case UserType =>
        if e.base !in env.store && v.Str? then Object(env, e.base, EnumObject(e.base, v.s)) == Ok(EnumObject(e.base, v.s))
        else v.Map? ==> SteadyObject(env, if Explicit(v.entries).Some? then Explicit(v.entries).value else e.base, v)
  }

  ghost predicate SteadyItems(env: Env, t: TypeSpec, v: Value)
    decreases v, 0
  {
    v.List? ==> forall i | 0 <= i < |v.items| :: SteadyFor(env, t, v.items[i])
  }

  ghost predicate SteadyEntries(env: Env, t: TypeSpec, v: Value)
    requires v.Map?
    decreases v, 0
  {
    forall k | k in v.entries :: SteadyFor(env, t, v.entries[k])
  }

  ghost predicate SteadyObject(env: Env, typeName: string, v: Value)
    requires v.Map?
    decreases v, 1
  {
    forall k | k in v.entries && k != TYPE_KEY :: SteadyEntry(env, typeName, k, v.entries[k])
  }

  ghost predicate SteadyEntry(env: Env, typeName: string, k: string, v: Value)
    decreases v, 5
  {
    match FieldType(env, typeName, k)
    case Some(t) => SteadyFor(env, t, v)
    case None => SteadyLoose(env, v)
  }

  /** A map that says itself what it is. */
  ghost predicate SteadyExplicit(env: Env, v: Value)
    requires v.Map? && Explicit(v.entries).Some?
    decreases v, 3, 0
  {
    var s := Explicit(v.entries).value;
    var e := Effective(Parse(s));
    if GoesLoose(env, e, v) || e.arrayDepth > 0 then true
    else if env.isEnum(e.base) then EnumSteady(env, s, v.entries)
    else match env.role(e.base)
      case Container =>
        env.isMap(e.base) ==> MapSteady(env, e.args[1], v)
      case UserType => ObjectSteady(env, s, v)
      case _ => true
  }

  /** A map of typed values whose own type is among them. If that is left alone it is used
      again; if not, the map has no type any more, and its values must stand by themselves. */
  ghost predicate MapSteady(env: Env, t: TypeSpec, v: Value)
    requires v.Map? && TYPE_KEY in v.entries
    decreases v, 1
  {
    if TypeKept(env, t, v.entries) then SteadyEntries(env, t, v)
    else forall k | k in v.entries && ForType(env, t, v.entries[k]).Ok? :: LooselyFixed(env, ForType(env, t, v.entries[k]).v)
  }

  ghost predicate LooselyFixed(env: Env, v: Value) {
    Loose(env, v) == Ok(v)
  }

  /** A map's own type, normalized as one of its values, stays. */
  ghost predicate TypeKept(env: Env, t: TypeSpec, m: map<string, Value>)
    requires TYPE_KEY in m
  {
    ForType(env, t, m[TYPE_KEY]) == Ok(m[TYPE_KEY])
  }

  /** Afterwards the map names its class as the wire does. If that is another name, it counts
      what the class is taken for under it. */
  ghost predicate OnWire(env: Env, s: string, entriesStay: bool) {
    var w := WireName(env.store, s);
    env.isEnum(w) || env.role(w).Passthrough? || (env.role(w).UserType? && entriesStay)
  }

  /** The entries of an enum are left raw, and become those of an object if the class is no
      enum under its wire name. */
  ghost predicate EnumSteady(env: Env, s: string, m: map<string, Value>) {
    WireName(env.store, s) == s || OnWire(env, s, forall k | k in m && k != TYPE_KEY :: Entry(env, s, k, m[k]) == Ok(m[k]))
  }

  ghost predicate ObjectSteady(env: Env, s: string, v: Value)
    requires v.Map?
    decreases v, 2
  {
    if WireName(env.store, s) == s then SteadyObject(env, s, v) else OnWire(env, s, SteadyObject(env, s, v))
  }

  // ------------------------------------------------------------------
  // Normalizing twice

  lemma {:induction false} ScalarTwice(env: Env, base: string, v: Value, y: Value)
    requires SoundScalars(env) && Scalar(env, base, v) == Ok(y) && !v.Null?
    ensures Scalar(env, base, y) == Ok(y) && (v.Map? ==> y.Map?) && !y.Null?
    ensures v.Map? ==> y == v || (IsDecimal(base) && Explicit(y.entries) == Some(base)
                                  && (Explicit(v.entries).Some? ==> Explicit(v.entries) == Some(base)))
    ensures v.Str? && y.Str? ==> y == v
  {
    DecimalNames(base);
  }

  lemma {:induction false} DecimalNames(base: string)
    ensures IsDecimal(base) ==> Trim(base) == base && base != ""
  {
    assert AllNameChars(BIG_DECIMAL) && AllNameChars(BIG_INTEGER);
    NamesAreTight(BIG_DECIMAL);
    NamesAreTight(BIG_INTEGER);
  }

  lemma {:induction false} ExplicitSet(m: map<string, Value>, w: string)
    requires Trim(w) == w && w != ""
    ensures Explicit(m[TYPE_KEY := Str(w)]) == Some(w)
  {
    hide Trim;
  }

  lemma {:induction false} ExplicitTrimmed(m: map<string, Value>)
    requires Explicit(m).Some?
    ensures Trim(Explicit(m).value) == Explicit(m).value && Explicit(m).value != "" && TYPE_KEY in m && m[TYPE_KEY].Str?
  {
    TrimTwice(m[TYPE_KEY].s);
  }

  lemma {:induction false} EnumStays(env: Env, base: string, m: map<string, Value>, w: string)
    requires Trim(w) == w && w != "" && WireName(env.store, w) == w
    ensures Enum(env, base, Map(m[TYPE_KEY := Str(w)])) == Map(m[TYPE_KEY := Str(w)])
  {
    ExplicitSet(m, w);
    hide Explicit, WireName, Trim;
    assert m[TYPE_KEY := Str(w)][TYPE_KEY := Str(w)] == m[TYPE_KEY := Str(w)];
  }

  lemma {:induction false} EnumMap(env: Env, base: string, v: Value)
    requires SoundNames(env) && Trim(base) == base && base != "" && v.Map?
    ensures var n := if Explicit(v.entries).Some? then Explicit(v.entries).value else base;
            && Enum(env, base, v) == Map(v.entries[TYPE_KEY := Str(WireName(env.store, n))])
            && Enum(env, base, Enum(env, base, v)) == Enum(env, base, v)
  {
    var n := if Explicit(v.entries).Some? then Explicit(v.entries).value else base;
    if Explicit(v.entries).Some? { ExplicitTrimmed(v.entries); }
    NameSettles(env, n);
    assert Enum(env, base, v) == Map(v.entries[TYPE_KEY := Str(WireName(env.store, n))]);
    hide Enum, Explicit, SoundNames, WireName, Trim;
    EnumStays(env, base, v.entries, WireName(env.store, n));
  }

  lemma {:induction false} EnumText(env: Env, base: string, s: string)
    requires SoundNames(env) && Trim(base) == base && base != ""
    ensures Enum(env, base, Enum(env, base, Str(s))) == Enum(env, base, Str(s))
  {
    var w := WireName(env.store, base);
    assert Enum(env, base, Str(s)) == EnumObject(w, s);
    NameSettles(env, base);
    hide Enum, SoundNames, WireName, Trim;
    EnumStays(env, base, map["name" := Str(s)], w);
  }

  lemma {:induction false} EnumTwice(env: Env, base: string, v: Value)
    requires SoundNames(env) && Trim(base) == base && base != ""
    ensures Enum(env, base, Enum(env, base, v)) == Enum(env, base, v) && (v.Null? <==> Enum(env, base, v).Null?)
    ensures v.Map? ==> Enum(env, base, v).Map?
  {
    hide SoundNames, WireName, Explicit, Trim;
    match v
    case Map(_) => EnumMap(env, base, v);
    case Str(s) => EnumText(env, base, s);
    case _ =>
  }

  lemma {:induction false} EntryTwice(env: Env, typeName: string, k: string, v: Value, y: Value)
    requires Sound(env) && Entry(env, typeName, k, v) == Ok(y)
    ensures Entry(env, typeName, k, y) == Ok(y) <==> SteadyEntry(env, typeName, k, v)
    decreases v, 5
  {
    hide ForType, Loose, SteadyFor, SteadyLoose, Sound;
    match FieldType(env, typeName, k)
    case Some(t) =>
      FieldTidy(env, typeName, k);
      ForTypeTwice(env, t, v, y);
    case None => LooseTwice(env, v, y);
  }

  lemma {:induction false} FieldTidy(env: Env, typeName: string, k: string)
    ensures FieldType(env, typeName, k).Some? ==> Tidy(FieldType(env, typeName, k).value)
  {
    hide Parse, Tidy;
    var known := StoreName(env.store, typeName);
    if known in env.store && k in env.fields(known) { ParseTidy(env.fields(known)[k]); }
  }

  lemma {:induction false} ObjectResult(env: Env, base: string, v: Value, y: Value) returns (rest: map<string, Value>)
    requires Object(env, base, v) == Ok(y)
    ensures v.Map? && (Explicit(v.entries).Some? ==> Admissible(env, base, Explicit(v.entries).value))
    ensures var n := if Explicit(v.entries).Some? then Explicit(v.entries).value else base;
            && rest.Keys == v.entries.Keys - {TYPE_KEY} && y == Map(rest[TYPE_KEY := Str(WireName(env.store, n))])
            && forall k | k in rest :: Entry(env, n, k, v.entries[k]) == Ok(rest[k])
  {
    hide Explicit, Admissible, WireName, Entry, Fields;
    var n := if Explicit(v.entries).Some? then Explicit(v.entries).value else base;
    FieldsMean(env, n, v, Fields(env, n, v).v);
    rest := Fields(env, n, v).v.entries;
  }

  lemma {:induction false} ObjectFromFields(env: Env, base: string, w: string, v: Value, rest: map<string, Value>)
    requires v.Map? && Explicit(v.entries) == Some(w) && Admissible(env, base, w) && WireName(env.store, w) == w
    requires TYPE_KEY !in rest
    ensures Object(env, base, v) == Ok(Map(rest[TYPE_KEY := Str(w)])) <==> Fields(env, w, v) == Ok(Map(rest))
  {
    hide Explicit, Admissible, WireName, Fields;
    var r := Fields(env, w, v);
    if r.Ok? && r.v.Map? {
      FieldsMean(env, w, v, r.v);
      assert TYPE_KEY !in r.v.entries;
      if r.v.entries[TYPE_KEY := Str(w)] == rest[TYPE_KEY := Str(w)] {
        SameBeneath(r.v.entries, rest, w);
      }
    }
  }

  lemma {:induction false} SameBeneath(m: map<string, Value>, rest: map<string, Value>, w: string)
    requires TYPE_KEY !in m && TYPE_KEY !in rest && m[TYPE_KEY := Str(w)] == rest[TYPE_KEY := Str(w)]
    ensures m == rest
  {
    assert m == m[TYPE_KEY := Str(w)] - {TYPE_KEY} && rest == rest[TYPE_KEY := Str(w)] - {TYPE_KEY};
  }

  /** An object under its wire name becomes the one whose entries its own become. */
  lemma {:induction false} ObjectFrom(env: Env, base: string, w: string, m: map<string, Value>, rest: map<string, Value>)
    requires Trim(w) == w && w != "" && WireName(env.store, w) == w && Admissible(env, base, w)
    requires TYPE_KEY !in m && rest.Keys == m.Keys
    ensures Object(env, base, Map(m[TYPE_KEY := Str(w)])) == Ok(Map(rest[TYPE_KEY := Str(w)]))
            <==> forall k | k in m :: Entry(env, w, k, m[k]) == Ok(rest[k])
  {
    ExplicitSet(m, w);
    hide Explicit, Admissible, WireName, Entry, Fields, Object, Trim;
    var v := Map(m[TYPE_KEY := Str(w)]);
    assert v.entries.Keys - {TYPE_KEY} == m.Keys;
    FieldsMean(env, w, v, Map(rest));
    ObjectFromFields(env, base, w, v, rest);
  }

  /** An object keeps its wire name, and is left alone under its declared class and under that
      name exactly when its entries are steady. */
  lemma {:induction false} ObjectTwice(env: Env, base: string, v: Value, y: Value)
    requires Sound(env) && Object(env, base, v) == Ok(y) && Trim(base) == base && base != ""
    ensures y.Map? && v.Map?
    ensures var n := if Explicit(v.entries).Some? then Explicit(v.entries).value else base;
            && Explicit(y.entries) == Some(WireName(env.store, n))
            && TYPE_KEY in y.entries && y.entries[TYPE_KEY] == Str(WireName(env.store, n))
            && (Object(env, base, y) == Ok(y) <==> SteadyObject(env, n, v))
            && (Object(env, WireName(env.store, n), y) == Ok(y) <==> SteadyObject(env, n, v))
    decreases v, 1
  {
    var rest := ObjectResult(env, base, v, y);
    var n := if Explicit(v.entries).Some? then Explicit(v.entries).value else base;
    ObjectName(env, base, v);
    var w := WireName(env.store, n);
    hide *;
    WireAdmissible(env, base, n);
    SettledName(env, n);
    ExplicitSet(rest, w);
    ObjectFrom(env, base, w, rest, rest);
    ObjectFrom(env, w, w, rest, rest);
    FieldsSteady(env, n, v, rest);
  }

  lemma {:induction false} ObjectName(env: Env, base: string, v: Value)
    requires SoundNames(env) && Trim(base) == base && base != "" && v.Map?
    ensures Settled(env, if Explicit(v.entries).Some? then Explicit(v.entries).value else base)
  {
    var n := if Explicit(v.entries).Some? then Explicit(v.entries).value else base;
    if Explicit(v.entries).Some? { ExplicitTrimmed(v.entries); }
    hide Explicit, Settled, Trim, SoundNames;
    NameSettles(env, n);
  }

  lemma {:induction false} SettledName(env: Env, n: string)
    requires Settled(env, n)
    ensures var w := WireName(env.store, n); Trim(w) == w && w != "" && WireName(env.store, w) == w
  {
  }

  lemma {:induction false} FieldsSteady(env: Env, n: string, v: Value, rest: map<string, Value>)
    requires Sound(env) && Settled(env, n) && v.Map? && rest.Keys == v.entries.Keys - {TYPE_KEY}
    requires forall k | k in rest :: Entry(env, n, k, v.entries[k]) == Ok(rest[k])
    ensures var w := WireName(env.store, n);
            (forall k | k in rest :: Entry(env, w, k, rest[k]) == Ok(rest[k])) <==> SteadyObject(env, n, v)
    decreases v, 0
  {
    hide Entry, SteadyEntry, Settled, Sound, WireName;
    forall k | k in rest
      ensures Entry(env, WireName(env.store, n), k, rest[k]) == Ok(rest[k]) <==> SteadyEntry(env, n, k, v.entries[k])
    {
      EntryTwice(env, n, k, v.entries[k], rest[k]);
      SameEntry(env, n, k, rest[k]);
    }
  }

  lemma {:induction false} ItemsTwice(env: Env, t: TypeSpec, v: Value, y: Value)
    requires Sound(env) && Tidy(t) && v.List? && ForItems(env, t, v) == Ok(y)
    ensures y.List? && (ForItems(env, t, y) == Ok(y) <==> SteadyItems(env, t, v))
    decreases v, 0
  {
    hide ForItems, LooseItems, ForType, Loose, Sound, Tidy, SteadyFor;
    ItemsMean(env, t, v, y);
    ItemsMean(env, t, y, y);
    forall i | 0 <= i < |v.items|
      ensures ForType(env, t, y.items[i]) == Ok(y.items[i]) <==> SteadyFor(env, t, v.items[i])
    {
      ForTypeTwice(env, t, v.items[i], y.items[i]);
    }
  }

  lemma {:induction false} EntriesTwice(env: Env, t: TypeSpec, v: Value, y: Value)
    requires Sound(env) && Tidy(t) && v.Map? && ForEntries(env, t, v) == Ok(y)
    ensures y.Map? && (ForEntries(env, t, y) == Ok(y) <==> SteadyEntries(env, t, v))
    decreases v, 0
  {
    hide ForEntries, LooseEntries, ForType, Loose, Sound, Tidy, Explicit, SteadyFor;
    EntriesMean(env, t, v, y);
    EntriesMean(env, t, y, y);
    forall k | k in v.entries
      ensures ForType(env, t, y.entries[k]) == Ok(y.entries[k]) <==> SteadyFor(env, t, v.entries[k])
    {
      ForTypeTwice(env, t, v.entries[k], y.entries[k]);
    }
  }

  /** What is asked of the type of a value that does not go loose. */
  ghost predicate Applies(env: Env, e: TypeSpec, v: Value) {
    Tidy(e) && e.wildcard.NoWildcard? && !GoesLoose(env, e, v) && !v.Null?
  }

  lemma {:induction false} TypedTwice(env: Env, e: TypeSpec, v: Value, y: Value)
    requires Sound(env) && Applies(env, e, v) && Typed(env, e, v) == Ok(y)
    ensures Applies(env, e, y) && (v.Map? ==> y.Map?)
    ensures Typed(env, e, y) == Ok(y) <==> SteadyTyped(env, e, v)
    decreases v, 2, 1
  {
    hide ForType, Object, ForItems, ForEntries, Sound, Enum, Scalar, StoreName, EnumObject;
    hide SteadyItems, SteadyEntries, SteadyObject, Explicit, Trim;
    if e.arrayDepth > 0 {
      ItemsTwice(env, e.(arrayDepth := e.arrayDepth - 1), v, y);
    } else if env.isEnum(e.base) {
      BaseTwice(env, e, v, y);
    } else {
      match env.role(e.base) {
        case Container =>
          if env.isMap(e.base) {
            EntriesTwice(env, e.args[1], v, y);
          } else {
            ItemsTwice(env, e.args[0], v, y);
          }
        case _ => BaseTwice(env, e, v, y);
      }
    }
  }

  /** By name alone: enums, scalars and objects. */
  lemma {:induction false} BaseTwice(env: Env, e: TypeSpec, v: Value, y: Value)
    requires Sound(env) && Applies(env, e, v) && Typed(env, e, v) == Ok(y)
    requires e.arrayDepth == 0 && (env.isEnum(e.base) || !env.role(e.base).Container?)
    ensures Applies(env, e, y) && (v.Map? ==> y.Map?)
    ensures Typed(env, e, y) == Ok(y) <==> SteadyTyped(env, e, v)
    decreases v, 2, 0
  {
    hide ForType, Scalar, StoreName, SteadyObject, Trim, Sound;
    assert SoundNames(env) && SoundScalars(env) by { SoundParts(env); }
    if env.isEnum(e.base) {
      EnumTwice(env, e.base, v);
    } else if env.role(e.base).Passthrough? {
      ScalarTwice(env, e.base, v, y);
    } else if !(e.base !in env.store && v.Str?) {
      ObjectTwice(env, e.base, v, y);
    }
  }

  lemma {:induction false} SoundParts(env: Env)
    requires Sound(env)
    ensures SoundNames(env) && SoundScalars(env)
  {
  }

  /** Normalizing by what a value says itself keeps its kind. */
  lemma {:induction false} LooseKind(env: Env, v: Value, y: Value)
    requires Loose(env, v) == Ok(y)
    ensures (v.Null? <==> y.Null?) && (v.Map? <==> y.Map?) && (v.List? <==> y.List?) && (v.Str? <==> y.Str?)
  {
    hide ForItems, ForEntries, LooseItems, LooseEntries, Object, WireName, Parse, Explicit;
    match v
    case List(_) => ItemsMean(env, ZERO, v, y);
    case Map(m) =>
      if Explicit(m).Some? {
        ExplicitKind(env, v, y);
      } else {
        EntriesMean(env, ZERO, v, y);
      }
    case _ =>
  }

  lemma {:induction false} ExplicitKind(env: Env, v: Value, y: Value)
    requires v.Map? && Explicit(v.entries).Some? && Loose(env, v) == Ok(y)
    ensures y.Map?
  {
    hide ForItems, ForEntries, LooseEntries, Object, WireName, Parse, Explicit;
    var e := Effective(Parse(Explicit(v.entries).value));
    if env.role(e.base).Container? && !env.isEnum(e.base) && e.arrayDepth == 0 && env.isMap(e.base) {
      EntriesMean(env, e.args[1], v, y);
    }
    if env.role(e.base).UserType? && !env.isEnum(e.base) && e.arrayDepth == 0 {
      var rest := ObjectResult(env, e.base, v, y);
    }
  }

  lemma {:induction false} StillNoType(env: Env, m: map<string, Value>, m': map<string, Value>)
    requires Explicit(m) == None && m.Keys == m'.Keys && (TYPE_KEY in m ==> Loose(env, m[TYPE_KEY]) == Ok(m'[TYPE_KEY]))
    ensures Explicit(m') == None
  {
    if TYPE_KEY in m { LooseKind(env, m[TYPE_KEY], m'[TYPE_KEY]); }
    hide LooseItems, LooseEntries, Typed, GoesLoose, Trim;
  }

  lemma {:induction false} LooseTwice(env: Env, v: Value, y: Value)
    requires Sound(env) && Loose(env, v) == Ok(y)
    ensures Loose(env, y) == Ok(y) <==> SteadyLoose(env, v)
    decreases v, 3
  {
    hide LooseItems, LooseEntries, ForItems, ForEntries, ForType, Typed, Explicit, Sound, SteadyExplicit;
    match v
    case List(_) =>
      ItemsMean(env, ZERO, v, y);
      ItemsMean(env, ZERO, y, y);
      forall i | 0 <= i < |v.items| ensures Loose(env, y.items[i]) == Ok(y.items[i]) <==> SteadyLoose(env, v.items[i]) {
        LooseTwice(env, v.items[i], y.items[i]);
      }
    case Map(m) =>
      if Explicit(m).Some? {
        ExplicitTwice(env, v, y);
      } else {
        UntypedTwice(env, v, y);
      }
    case _ =>
  }

  lemma {:induction false} UntypedTwice(env: Env, v: Value, y: Value)
    requires Sound(env) && v.Map? && Explicit(v.entries).None? && Loose(env, v) == Ok(y)
    ensures Loose(env, y) == Ok(y) <==> SteadyLoose(env, v)
    decreases v, 2, 9
  {
    EntriesMean(env, ZERO, v, y);
    EntriesMean(env, ZERO, y, y);
    StillNoType(env, v.entries, y.entries);
    forall k | k in v.entries
      ensures Loose(env, y.entries[k]) == Ok(y.entries[k]) <==> SteadyLoose(env, v.entries[k])
    {
      LooseTwice(env, v.entries[k], y.entries[k]);
    }
    hide LooseEntries, Explicit, SteadyExplicit, Sound;
  }

  // ------------------------------------------------------------------
  // A value that says what it is

  /** What the program makes of a map under the type the map gives itself. */
  ghost predicate Under(env: Env, s: string, e: TypeSpec, v: Value) {
    && v.Map? && Explicit(v.entries) == Some(s) && e == Effective(Parse(s)) && !GoesLoose(env, e, v)
  }

  lemma {:induction false} UnderLoose(env: Env, s: string, e: TypeSpec, v: Value)
    requires Under(env, s, e, v)
    ensures e.wildcard.NoWildcard? && Loose(env, v) == Typed(env, e, v)
  {
    hide Parse, Typed, Explicit;
  }

  /** A map that names its class by a wire name. */
  lemma {:induction false} WireTwice(env: Env, w: string, y: Value)
    requires y.Map? && Explicit(y.entries) == Some(w) && PlainName(w) && w != OBJECT && !IsDecimal(w)
    ensures if env.isEnum(w) then Loose(env, y) == Ok(Enum(env, w, y))
            else if env.role(w).UserType? then Loose(env, y) == Object(env, w, y)
            else if env.role(w).Passthrough? then Loose(env, y) == Ok(y)
            else !Loose(env, y).Ok?
  {
    hide Explicit, Trim, Object, Enum, ForItems, ForEntries, LooseEntries;
  }

  lemma {:induction false} ExplicitTwice(env: Env, v: Value, y: Value)
    requires Sound(env) && v.Map? && Explicit(v.entries).Some? && Loose(env, v) == Ok(y)
    ensures Loose(env, y) == Ok(y) <==> SteadyExplicit(env, v)
    decreases v, 2, 8
  {
    var s := Explicit(v.entries).value;
    var e := Effective(Parse(s));
    ExplicitApplies(env, v, y);
    hide Loose, Explicit, Parse, Typed, Sound, SteadyExplicit, Tidy;
    if env.isEnum(e.base) {
      ExplicitEnumTwice(env, s, e, v, y);
    } else {
      match env.role(e.base) {
        case Container => ExplicitMapTwice(env, s, e, v, y);
        case UserType => ExplicitObjectTwice(env, s, e, v, y);
        case _ => ExplicitScalarTwice(env, s, e, v, y);
      }
    }
  }

  lemma {:induction false} ExplicitApplies(env: Env, v: Value, y: Value)
    requires v.Map? && Explicit(v.entries).Some? && Loose(env, v) == Ok(y)
    ensures var s := Explicit(v.entries).value;
            var e := Effective(Parse(s));
            && Under(env, s, e, v) && Tidy(e) && Typed(env, e, v) == Ok(y) && e.arrayDepth == 0
            && (env.isEnum(e.base) || !env.role(e.base).Unknown?)
  {
    var s := Explicit(v.entries).value;
    ParseTidy(s);
    TidyEffective(Parse(s));
    hide Explicit, Parse, Tidy, ForItems, ForEntries, Object, Scalar, Enum;
  }

  lemma {:induction false} TypedByRole(env: Env, e: TypeSpec, v: Value)
    requires !GoesLoose(env, e, v) && e.wildcard.NoWildcard? && e.arrayDepth == 0 && v.Map?
    ensures env.isEnum(e.base) ==> Typed(env, e, v) == Ok(Enum(env, e.base, v))
    ensures !env.isEnum(e.base) && env.role(e.base).UserType? ==> Typed(env, e, v) == Object(env, e.base, v)
    ensures !env.isEnum(e.base) && env.role(e.base).Passthrough? ==> Typed(env, e, v) == Scalar(env, e.base, v)
    ensures !env.isEnum(e.base) && env.role(e.base).Container? ==>
              if env.isMap(e.base) then |e.args| >= 2 && Typed(env, e, v) == ForEntries(env, e.args[1], v)
              else Typed(env, e, v) == Rejected
  {
    hide Enum, Object, Scalar, ForEntries, ForItems;
  }

  lemma {:induction false} SteadyByRole(env: Env, s: string, e: TypeSpec, v: Value)
    requires Under(env, s, e, v) && e.arrayDepth == 0
    ensures env.isEnum(e.base) ==> (SteadyExplicit(env, v) <==> EnumSteady(env, s, v.entries))
    ensures !env.isEnum(e.base) && env.role(e.base).UserType? ==> (SteadyExplicit(env, v) <==> ObjectSteady(env, s, v))
    ensures !env.isEnum(e.base) && env.role(e.base).Passthrough? ==> SteadyExplicit(env, v)
    ensures !env.isEnum(e.base) && env.role(e.base).Container? && !env.isMap(e.base) ==> SteadyExplicit(env, v)
    ensures !env.isEnum(e.base) && env.role(e.base).Container? && env.isMap(e.base) ==>
              && TYPE_KEY in v.entries && |e.args| >= 2
              && (SteadyExplicit(env, v) <==> MapSteady(env, e.args[1], v))
  {
    hide EnumSteady, ObjectSteady, SteadyEntries, TypeKept, Parse, ForType, LooselyFixed;
  }

  /** The same type again, on a map that says the same of itself. */
  lemma {:induction false} UnderAgain(env: Env, s: string, e: TypeSpec, v: Value, y: Value)
    requires Under(env, s, e, v) && y.Map? && Explicit(y.entries) == Some(s)
    ensures Under(env, s, e, y)
  {
    hide Parse, Explicit;
  }

  /** A text that names its class otherwise on the wire is a class name and nothing more. */
  lemma {:induction false} UnderPlain(env: Env, s: string, e: TypeSpec, v: Value)
    requires Under(env, s, e, v) && SoundNames(env)
    ensures Settled(env, s)
    ensures WireName(env.store, s) != s ==> e == TypeSpec(s, [], 0, NoWildcard)
  {
    ExplicitTrimmed(v.entries);
    NameSettles(env, s);
    hide Explicit, WireName, StoreName, Trim;
  }

  /** Unless its wire name is another, the enum says the same of itself afterwards; if it is,
      the enum is an enum again or an object of its class. */
  lemma {:induction false} ExplicitEnumTwice(env: Env, s: string, e: TypeSpec, v: Value, y: Value)
    requires Sound(env) && Under(env, s, e, v) && Tidy(e) && e.arrayDepth == 0 && env.isEnum(e.base) && Typed(env, e, v) == Ok(y)
    ensures Loose(env, y) == Ok(y) <==> SteadyExplicit(env, v)
  {
    SoundParts(env);
    UnderPlain(env, s, e, v);
    UnderLoose(env, s, e, v);
    TypedByRole(env, e, v);
    SteadyByRole(env, s, e, v);
    var w := WireName(env.store, s);
    var rest := v.entries - {TYPE_KEY};
    EnumNamed(env, s, e.base, v, rest);
    hide Loose, Typed, SteadyExplicit, Explicit, Parse, Sound, SoundNames, Enum, Under, Tidy, Trim;
    EnumMapTwice(env, s, e, v, y, rest);
  }

  lemma {:induction false} EnumNamed(env: Env, s: string, base: string, v: Value, rest: map<string, Value>)
    requires v.Map? && Explicit(v.entries) == Some(s) && rest == v.entries - {TYPE_KEY}
    ensures Enum(env, base, v) == Map(rest[TYPE_KEY := Str(WireName(env.store, s))])
  {
    hide Explicit, WireName;
    assert v.entries[TYPE_KEY := Str(WireName(env.store, s))] == rest[TYPE_KEY := Str(WireName(env.store, s))];
  }

  lemma {:induction false} EnumMapTwice(env: Env, s: string, e: TypeSpec, v: Value, y: Value, rest: map<string, Value>)
    requires Under(env, s, e, v) && e.arrayDepth == 0 && env.isEnum(e.base) && Settled(env, s)
    requires rest == v.entries - {TYPE_KEY} && y == Map(rest[TYPE_KEY := Str(WireName(env.store, s))])
    ensures Loose(env, y) == Ok(y) <==> EnumSteady(env, s, v.entries)
  {
    var w := WireName(env.store, s);
    ExplicitSet(rest, w);
    hide Loose, Typed, Explicit, Parse, Enum, Object, StoreName, WireName, Trim, PlainName;
    EnumStays(env, if w == s then e.base else w, rest, w);
    if w == s {
      UnderAgain(env, s, e, v, y);
      UnderLoose(env, s, e, y);
      TypedByRole(env, e, y);
    } else {
      WireTwice(env, w, y);
      EnumAsObject(env, s, v, rest);
    }
  }

  lemma {:induction false} EnumAsObject(env: Env, s: string, v: Value, rest: map<string, Value>)
    requires v.Map? && Settled(env, s) && rest == v.entries - {TYPE_KEY}
    ensures var w := WireName(env.store, s);
            var y := Map(rest[TYPE_KEY := Str(w)]);
            Object(env, w, y) == Ok(y) <==> forall k | k in v.entries && k != TYPE_KEY :: Entry(env, s, k, v.entries[k]) == Ok(v.entries[k])
  {
    var w := WireName(env.store, s);
    WireAdmissible(env, s, s);
    hide Object, Entry, StoreName, WireName, Trim, PlainName, Admissible;
    ObjectFrom(env, w, w, rest, rest);
    forall k | k in rest ensures Entry(env, w, k, rest[k]) == Entry(env, s, k, v.entries[k]) {
      SameEntry(env, s, k, rest[k]);
    }
  }

  /** A text, normalized by any type, stays or is no text any more. */
  lemma {:induction false} TextBecomes(env: Env, t: TypeSpec, x: string, z: Value)
    requires SoundScalars(env) && ForType(env, t, Str(x)) == Ok(z)
    ensures z == Str(x) || !z.Str?
  {
    hide WireName, Parse, ForItems, ForEntries;
    var v := Str(x);
    if GoesLoose(env, t, v) {
      assert Loose(env, v) == Ok(v);
    } else {
      var e := Effective(t);
      assert Typed(env, e, v) == Ok(z);
      if e.arrayDepth == 0 && !env.isEnum(e.base) && env.role(e.base).Passthrough? {
        ScalarTwice(env, e.base, v, z);
      } else if e.arrayDepth == 0 && !env.isEnum(e.base) && env.role(e.base).UserType? {
        assert Object(env, e.base, v) == Rejected;
      }
    }
  }

  lemma {:induction false} ExplicitMapTwice(env: Env, s: string, e: TypeSpec, v: Value, y: Value)
    requires Sound(env) && Under(env, s, e, v) && Tidy(e) && e.arrayDepth == 0 && Typed(env, e, v) == Ok(y)
    requires !env.isEnum(e.base) && env.role(e.base).Container?
    ensures Loose(env, y) == Ok(y) <==> SteadyExplicit(env, v)
    decreases v, 2, 7
  {
    SoundParts(env);
    UnderLoose(env, s, e, v);
    TypedByRole(env, e, v);
    SteadyByRole(env, s, e, v);
    ExplicitTrimmed(v.entries);
    var t := e.args[1];
    assert Tidy(t);
    EntriesMean(env, t, v, y);
    hide Loose, Typed, SteadyExplicit, Parse, Sound, ForEntries, LooseEntries, ForType, SteadyEntries, Tidy, GoesLoose;
    if TypeKept(env, t, v.entries) {
      SameExplicit(v.entries, y.entries);
      hide Explicit;
      UnderAgain(env, s, e, v, y);
      UnderLoose(env, s, e, y);
      TypedAgain(env, s, e, y);
      EntriesTwice(env, t, v, y);
    } else {
      TextBecomes(env, t, v.entries[TYPE_KEY].s, y.entries[TYPE_KEY]);
      assert Explicit(y.entries) == None;
      hide Explicit;
      TypeLostTwice(env, t, v, y);
    }
  }

  lemma {:induction false} TypedAgain(env: Env, s: string, e: TypeSpec, y: Value)
    requires Under(env, s, e, y) && e.arrayDepth == 0 && !env.isEnum(e.base) && env.role(e.base).Container? && env.isMap(e.base)
    ensures e.wildcard.NoWildcard? && |e.args| >= 2 && Typed(env, e, y) == ForEntries(env, e.args[1], y)
  {
    UnderLoose(env, s, e, y);
    TypedByRole(env, e, y);
  }

  lemma {:induction false} SameExplicit(m: map<string, Value>, m': map<string, Value>)
    requires TYPE_KEY in m && TYPE_KEY in m' && m'[TYPE_KEY] == m[TYPE_KEY]
    ensures Explicit(m') == Explicit(m)
  {
    hide Trim;
  }

  /** A map that has lost its type is normalized entry by entry. */
  lemma {:induction false} TypeLostTwice(env: Env, t: TypeSpec, v: Value, y: Value)
    requires v.Map? && TYPE_KEY in v.entries && !TypeKept(env, t, v.entries) && y.Map? && Explicit(y.entries) == None
    requires y.entries.Keys == v.entries.Keys && forall k | k in v.entries :: ForType(env, t, v.entries[k]) == Ok(y.entries[k])
    ensures Loose(env, y) == Ok(y) <==> MapSteady(env, t, v)
  {
    EntriesMean(env, ZERO, y, y);
    assert Loose(env, y) == LooseEntries(env, y);
    hide Loose, LooseEntries, ForEntries, Explicit, TypeKept, ForType;
  }

  lemma {:induction false} ExplicitObjectTwice(env: Env, s: string, e: TypeSpec, v: Value, y: Value)
    requires Sound(env) && Under(env, s, e, v) && Tidy(e) && e.arrayDepth == 0 && Typed(env, e, v) == Ok(y)
    requires !env.isEnum(e.base) && env.role(e.base).UserType?
    ensures Loose(env, y) == Ok(y) <==> SteadyExplicit(env, v)
    decreases v, 2, 7
  {
    SoundParts(env);
    UnderPlain(env, s, e, v);
    UnderLoose(env, s, e, v);
    TypedByRole(env, e, v);
    SteadyByRole(env, s, e, v);
    assert Trim(e.base) == e.base && e.base != "";
    ObjectTwice(env, e.base, v, y);
    hide Loose, Typed, SteadyExplicit, Parse, Sound, SoundNames, Object, SteadyObject, Explicit, Tidy, WireName, StoreName, Trim, PlainName;
    var w := WireName(env.store, s);
    if w == s {
      UnderAgain(env, s, e, v, y);
      UnderLoose(env, s, e, y);
      TypedByRole(env, e, y);
    } else {
      EnumStaysItself(env, s, y);
      WireTwice(env, w, y);
    }
  }

  lemma {:induction false} EnumStaysItself(env: Env, s: string, y: Value)
    requires y.Map? && Settled(env, s) && Explicit(y.entries) == Some(WireName(env.store, s))
    requires TYPE_KEY in y.entries && y.entries[TYPE_KEY] == Str(WireName(env.store, s))
    ensures Enum(env, WireName(env.store, s), y) == y
  {
    var w := WireName(env.store, s);
    hide Explicit, WireName, StoreName, Trim;
    assert y.entries[TYPE_KEY := Str(w)] == y.entries;
  }

  lemma {:induction false} ExplicitScalarTwice(env: Env, s: string, e: TypeSpec, v: Value, y: Value)
    requires Sound(env) && Under(env, s, e, v) && Tidy(e) && e.arrayDepth == 0 && Typed(env, e, v) == Ok(y)
    requires !env.isEnum(e.base) && env.role(e.base).Passthrough?
    ensures Loose(env, y) == Ok(y) <==> SteadyExplicit(env, v)
  {
    SoundParts(env);
    UnderLoose(env, s, e, v);
    TypedByRole(env, e, v);
    SteadyByRole(env, s, e, v);
    ScalarTwice(env, e.base, v, y);
    hide Loose, Typed, SteadyExplicit, Parse, Sound, Scalar, Explicit, Tidy, Trim, SoundScalars;
    if y != v {
      UnderAgain(env, s, e, v, y);
      UnderLoose(env, s, e, y);
      TypedByRole(env, e, y);
    }
  }

  /** What has been normalized stays as it is when it is normalized again, exactly when the
      value was steady. */
  lemma {:induction false} ForTypeTwice(env: Env, t: TypeSpec, v: Value, y: Value)
    requires Sound(env) && Tidy(t) && ForType(env, t, v) == Ok(y)
    ensures ForType(env, t, y) == Ok(y) <==> SteadyFor(env, t, v)
    decreases v, 4
  {
    hide Loose, Typed, Sound, SteadyLoose, SteadyTyped, Trim;
    if !v.Null? {
      if GoesLoose(env, t, v) {
        LooseKind(env, v, y);
        LooseTwice(env, v, y);
      } else {
        TidyEffective(t);
        TypedTwice(env, Effective(t), v, y);
      }
    }
  }

  lemma {:induction false} TidyEffective(t: TypeSpec)
    requires Tidy(t)
    ensures Tidy(Effective(t))
  {
    ObjectTight();
  }

  // ------------------------------------------------------------------
  // Where all values stay

  /** What is an enum or an object is one under its wire name too. */
  ghost predicate SpelledAlike(env: Env) {
    forall n | WireName(env.store, n) != n ::
      var w := WireName(env.store, n);
      (env.isEnum(n) ==> env.isEnum(w)) && (env.role(n).UserType? ==> env.isEnum(w) || env.role(w).UserType?)
  }

  /** Declared types name classes as the store does. */
  ghost predicate Declared(env: Env, t: TypeSpec) {
    StoreName(env.store, t.base) == t.base && forall i | 0 <= i < |t.args| :: Declared(env, t.args[i])
  }

  ghost predicate FieldsDeclared(env: Env) {
    forall c, f | c in env.store && f in env.fields(c) :: Declared(env, Parse(env.fields(c)[f]))
  }

  /** Where a value says what it is, it does so without type arguments. */
  ghost predicate PlainTypes(v: Value)
    decreases v
  {
    match v
    case Map(m) =>
      && (Explicit(m).Some? ==> Parse(Explicit(m).value).args == [])
      && forall k | k in m :: PlainTypes(m[k])
    case List(s) => forall i | 0 <= i < |s| :: PlainTypes(s[i])
    case _ => true
  }

  /** A name given for an enum constant of a class that is not in the store. */
  lemma {:induction false} UnknownEnum(env: Env, base: string, name: string)
    requires SoundNames(env) && Trim(base) == base && base != "" && StoreName(env.store, base) == base && base !in env.store
    ensures Object(env, base, EnumObject(base, name)) == Ok(EnumObject(base, name))
  {
    var rest := map["name" := Str(name)];
    NameSettles(env, base);
    WireAdmissible(env, base, base);
    assert WireName(env.store, base) == base;
    assert Entry(env, base, "name", Str(name)) == Ok(Str(name));
    hide Object, Entry, StoreName, WireName, Trim, Admissible, SoundNames;
    ObjectFrom(env, base, base, rest, rest);
  }

  ghost predicate Usual(env: Env) {
    SoundNames(env) && SpelledAlike(env) && FieldsDeclared(env)
  }

  lemma {:induction false} EntrySteady(env: Env, typeName: string, k: string, v: Value)
    requires Usual(env) && PlainTypes(v)
    ensures SteadyEntry(env, typeName, k, v)
    decreases v, 5
  {
    hide SteadyFor, SteadyLoose, PlainTypes, Parse, StoreName;
    match FieldType(env, typeName, k)
    case Some(t) =>
      FieldTidy(env, typeName, k);
      AllSteady(env, t, v);
    case None => LooseSteady(env, v);
  }

  lemma {:induction false} ObjectAllSteady(env: Env, typeName: string, v: Value)
    requires Usual(env) && PlainTypes(v) && v.Map?
    ensures SteadyObject(env, typeName, v)
    decreases v, 1
  {
    hide SteadyEntry, Explicit, Usual;
    forall k | k in v.entries && k != TYPE_KEY ensures SteadyEntry(env, typeName, k, v.entries[k]) {
      EntrySteady(env, typeName, k, v.entries[k]);
    }
  }

  lemma {:induction false} LooseSteady(env: Env, v: Value)
    requires Usual(env) && PlainTypes(v)
    ensures SteadyLoose(env, v)
    decreases v, 3, 1
  {
    hide Usual, SteadyExplicit, Explicit, Parse;
    match v
    case Map(m) =>
      if Explicit(m).Some? {
        ExplicitSteady(env, v);
      } else {
        forall k | k in m ensures SteadyLoose(env, m[k]) { LooseSteady(env, m[k]); }
      }
    case List(s) =>
      forall i | 0 <= i < |s| ensures SteadyLoose(env, s[i]) { LooseSteady(env, s[i]); }
    case _ =>
  }

  lemma {:induction false} ExplicitSteady(env: Env, v: Value)
    requires Usual(env) && PlainTypes(v) && v.Map? && Explicit(v.entries).Some?
    ensures SteadyExplicit(env, v)
    decreases v, 3, 0
  {
    var s := Explicit(v.entries).value;
    var e := Effective(Parse(s));
    assert e.args == [];
    if !GoesLoose(env, e, v) && e.arrayDepth == 0 {
      assert Under(env, s, e, v) && SoundNames(env) && SpelledAlike(env);
      UnderPlain(env, s, e, v);
      ObjectAllSteady(env, s, v);
      hide SteadyObject, Explicit, Parse, WireName, StoreName, PlainTypes, SoundNames, SteadyExplicit, FieldsDeclared, Trim;
      PlainSteady(env, s, e, v);
    }
  }

  lemma {:induction false} PlainSteady(env: Env, s: string, e: TypeSpec, v: Value)
    requires Under(env, s, e, v) && e.args == [] && e.arrayDepth == 0 && SpelledAlike(env) && SteadyObject(env, s, v)
    requires WireName(env.store, s) != s ==> e.base == s
    ensures SteadyExplicit(env, v)
  {
    hide SteadyObject, Explicit, Parse, WireName, SteadyExplicit;
    SteadyByRole(env, s, e, v);
  }

  /** A map that calls itself a map of objects of an unknown class has its type made such an
      object, and has none afterwards. */
  lemma {:induction false} MapTypeLost(env: Env, s: string, x: string)
    requires Trim(s) == s && s != "" && x != "" && x != OBJECT && x !in env.store && !env.isEnum(x) && env.role(x).UserType?
    requires var e := Effective(Parse(s));
             && e.base != "" && e.base != OBJECT && e.arrayDepth == 0 && !env.isEnum(e.base)
             && env.role(e.base).Container? && env.isMap(e.base)
             && |e.args| == 2 && e.args[1] == TypeSpec(x, [], 0, NoWildcard)
    ensures Loose(env, Map(map[][TYPE_KEY := Str(s)])) == Ok(Map(map[][TYPE_KEY := EnumObject(x, s)]))
    ensures Explicit(map[][TYPE_KEY := EnumObject(x, s)]) == None
  {
    var e := Effective(Parse(s));
    var v, y := Map(map[][TYPE_KEY := Str(s)]), Map(map[][TYPE_KEY := EnumObject(x, s)]);
    ExplicitSet(map[], s);
    assert ForType(env, e.args[1], Str(s)) == Ok(EnumObject(x, s));
    hide Explicit, Parse, ForType, Trim;
    assert Under(env, s, e, v);
    UnderLoose(env, s, e, v);
    TypedByRole(env, e, v);
    EntriesMean(env, e.args[1], v, y);
  }

  lemma {:induction false} TypedSteady(env: Env, e: TypeSpec, v: Value)
    requires Usual(env) && PlainTypes(v) && Declared(env, e) && Applies(env, e, v)
    ensures SteadyTyped(env, e, v)
    decreases v, 2
  {
    hide SteadyFor, SteadyObject, Explicit, Parse, StoreName, EnumObject, Object, Trim;
    if e.arrayDepth > 0 {
      ItemsSteady(env, e.(arrayDepth := e.arrayDepth - 1), v);
    } else if !env.isEnum(e.base) {
      match env.role(e.base) {
        case Container =>
          if env.isMap(e.base) {
            if v.Map? { EntriesSteady(env, e.args[1], v); }
          } else if v.List? {
            ItemsSteady(env, e.args[0], v);
          }
        case UserType =>
          if e.base !in env.store && v.Str? {
            UnknownEnum(env, e.base, v.s);
          } else if v.Map? {
            ObjectAllSteady(env, if Explicit(v.entries).Some? then Explicit(v.entries).value else e.base, v);
          }
        case _ =>
      }
    }
  }

  lemma {:induction false} ItemsSteady(env: Env, t: TypeSpec, v: Value)
    requires Usual(env) && PlainTypes(v) && Declared(env, t) && Tidy(t)
    ensures SteadyItems(env, t, v)
    decreases v, 0
  {
    hide SteadyFor, Usual, Declared, Tidy;
    if v.List? {
      forall i | 0 <= i < |v.items| ensures SteadyFor(env, t, v.items[i]) { AllSteady(env, t, v.items[i]); }
    }
  }

  lemma {:induction false} EntriesSteady(env: Env, t: TypeSpec, v: Value)
    requires Usual(env) && PlainTypes(v) && Declared(env, t) && Tidy(t) && v.Map?
    ensures SteadyEntries(env, t, v)
    decreases v, 0
  {
    hide SteadyFor, Usual, Declared, Tidy, Explicit;
    forall k | k in v.entries ensures SteadyFor(env, t, v.entries[k]) { AllSteady(env, t, v.entries[k]); }
  }

  /** On a store that classifies its classes alike under both their names, every value whose
      own types have no arguments is steady under every declared type. */
  lemma {:induction false} AllSteady(env: Env, t: TypeSpec, v: Value)
    requires Usual(env) && PlainTypes(v) && Declared(env, t) && Tidy(t)
    ensures SteadyFor(env, t, v)
    decreases v, 4
  {
    hide SteadyLoose, SteadyTyped, PlainTypes, StoreName, Trim;
    if !v.Null? {
      if GoesLoose(env, t, v) {
        LooseSteady(env, v);
      } else {
        TidyEffective(t);
        DeclaredEffective(env, t);
        TypedSteady(env, Effective(t), v);
      }
    }
  }

  lemma {:induction false} DeclaredEffective(env: Env, t: TypeSpec)
    requires Declared(env, t) && Effective(t).base != OBJECT
    ensures Declared(env, Effective(t))
  {
    hide StoreName;
  }

  /** An enum constant as one writes it stays, under any spelling of its class that makes it an
      enum or an object on the wire, if the class has no field called name. */
  lemma {:induction false} EnumConstantSteady(env: Env, s: string, name: string)
    requires SoundNames(env) && Trim(s) == s && s != "" && env.isEnum(Effective(Parse(s)).base)
    requires WireName(env.store, s) == s || env.isEnum(WireName(env.store, s)) || env.role(WireName(env.store, s)).UserType?
    requires FieldType(env, s, "name") == None
    ensures SteadyLoose(env, EnumObject(s, name))
  {
    var v := EnumObject(s, name);
    ExplicitSet(map["name" := Str(name)], s);
    NameEntry(env, s, name);
    hide Explicit, Parse, WireName, Entry, Trim, SoundNames, FieldType;
    assert EnumSteady(env, s, v.entries);
    EnumLooseSteady(env, s, v);
  }

  lemma {:induction false} NameEntry(env: Env, s: string, name: string)
    requires FieldType(env, s, "name") == None
    ensures Entry(env, s, "name", Str(name)) == Ok(Str(name))
  {
    hide FieldType;
  }

  lemma {:induction false} EnumLooseSteady(env: Env, s: string, v: Value)
    requires v.Map? && Explicit(v.entries) == Some(s) && env.isEnum(Effective(Parse(s)).base) && EnumSteady(env, s, v.entries)
    ensures SteadyLoose(env, v)
  {
    hide Explicit, Parse, EnumSteady;
  }

  // ------------------------------------------------------------------
  // A whole call

  function NormalizeArgs(env: Env, types: seq<string>, args: seq<Value>): Outcome {
    if |types| != |args| then Rejected
    else Collect(seq(|args|, i requires 0 <= i < |args| => ForType(env, Parse(types[i]), args[i])))
  }

  /** Accepted arguments are accepted again and come out unchanged, exactly when all are steady. */
  lemma {:induction false} NormalizeArgsTwice(env: Env, types: seq<string>, args: seq<Value>, out: seq<Value>)
    requires Sound(env) && NormalizeArgs(env, types, args) == Ok(List(out))
    ensures |types| == |args| == |out|
    ensures NormalizeArgs(env, types, out) == Ok(List(out))
            <==> forall i | 0 <= i < |args| :: SteadyFor(env, Parse(types[i]), args[i])
  {
    hide ForType, Collect, Sound, Parse, SteadyFor, Tidy;
    Collected(seq(|args|, i requires 0 <= i < |args| => ForType(env, Parse(types[i]), args[i])), List(out));
    Collected(seq(|out|, i requires 0 <= i < |out| => ForType(env, Parse(types[i]), out[i])), List(out));
    forall i | 0 <= i < |args|
      ensures ForType(env, Parse(types[i]), out[i]) == Ok(out[i]) <==> SteadyFor(env, Parse(types[i]), args[i])
    {
      ParseTidy(types[i]);
      ForTypeTwice(env, Parse(types[i]), args[i], out[i]);
    }
  }

  // ------------------------------------------------------------------
  // Where it ends

  /** No map in the value says of itself that it is what only it could say. */
  ghost predicate SaysSomething(env: Env, v: Value)
    decreases v
  {
    match v
    case Map(m) =>
      && (Explicit(m).Some? ==> !GoesLoose(env, Parse(Explicit(m).value), v))
      && forall k | k in m :: SaysSomething(env, m[k])
    case List(s) => forall i | 0 <= i < |s| :: SaysSomething(env, s[i])
    case _ => true
  }

  lemma {:induction false} CollectEnds(rs: seq<Outcome>)
    requires forall i | 0 <= i < |rs| :: !rs[i].Endless?
    ensures !Collect(rs).Endless?
  {
  }

  lemma {:induction false} CollectMapEnds(rs: map<string, Outcome>)
    requires forall k | k in rs :: !rs[k].Endless?
    ensures !CollectMap(rs).Endless?
  {
  }

  lemma {:induction false} ForItemsEnds(env: Env, t: TypeSpec, v: Value)
    requires v.List? && SaysSomething(env, v)
    ensures !ForItems(env, t, v).Endless? && !LooseItems(env, v).Endless?
    decreases v, 0
  {
    hide Collect, ForType, Loose;
    forall i | 0 <= i < |v.items| ensures !ForType(env, t, v.items[i]).Endless? && !Loose(env, v.items[i]).Endless? {
      Ends(env, t, v.items[i]);
    }
    CollectEnds(seq(|v.items|, i requires 0 <= i < |v.items| => ForType(env, t, v.items[i])));
    CollectEnds(seq(|v.items|, i requires 0 <= i < |v.items| => Loose(env, v.items[i])));
  }

  lemma {:induction false} ForEntriesEnds(env: Env, t: TypeSpec, typeName: string, v: Value)
    requires v.Map? && SaysSomething(env, v)
    ensures !ForEntries(env, t, v).Endless? && !LooseEntries(env, v).Endless? && !Fields(env, typeName, v).Endless?
    decreases v, 0
  {
    hide CollectMap, ForType, Loose, Parse, Explicit, GoesLoose;
    forall k | k in v.entries
      ensures !ForType(env, t, v.entries[k]).Endless? && !Loose(env, v.entries[k]).Endless?
      ensures !Entry(env, typeName, k, v.entries[k]).Endless?
    {
      Ends(env, t, v.entries[k]);
      if FieldType(env, typeName, k).Some? {
        Ends(env, FieldType(env, typeName, k).value, v.entries[k]);
      }
    }
    CollectMapEnds(map k | k in v.entries :: ForType(env, t, v.entries[k]));
    CollectMapEnds(map k | k in v.entries :: Loose(env, v.entries[k]));
    CollectMapEnds(map k | k in v.entries && k != TYPE_KEY :: Entry(env, typeName, k, v.entries[k]));
  }

  lemma {:induction false} TypedEnds(env: Env, e: TypeSpec, v: Value)
    requires SaysSomething(env, v) && !GoesLoose(env, e, v) && e.wildcard.NoWildcard?
    ensures !Typed(env, e, v).Endless?
    decreases v, 1
  {
    hide ForItems, ForEntries, Fields, Explicit, Enum, Admissible, WireName;
    if v.List? {
      if e.arrayDepth > 0 { ForItemsEnds(env, e.(arrayDepth := e.arrayDepth - 1), v); }
      if |e.args| > 0 { ForItemsEnds(env, e.args[0], v); }
    } else if v.Map? {
      var n := if Explicit(v.entries).Some? then Explicit(v.entries).value else e.base;
      ForEntriesEnds(env, if |e.args| > 1 then e.args[1] else ZERO, n, v);
    }
  }

  /** Normalization ends unless somewhere inside the value a map gives itself a type that
      leaves it to the map to say its type. */
  lemma {:induction false} Ends(env: Env, t: TypeSpec, v: Value)
    requires SaysSomething(env, v)
    ensures !ForType(env, t, v).Endless? && !Loose(env, v).Endless?
    decreases v, 2
  {
    hide Typed, ForItems, ForEntries, LooseItems, LooseEntries, Parse;
    if v.List? {
      ForItemsEnds(env, t, v);
    } else if v.Map? {
      ForEntriesEnds(env, t, "", v);
      if Explicit(v.entries).Some? {
        TypedEnds(env, Effective(Parse(Explicit(v.entries).value)), v);
      }
    }
    if !v.Null? && !GoesLoose(env, t, v) {
      TypedEnds(env, Effective(t), v);
    }
  }

  /** A call of one of the two functions. */
  datatype Call = CallForType(t: TypeSpec, v: Value) | CallLoose(v: Value)

  /** The call whose result is the call's own, when there is one. */
  function HandsOn(env: Env, c: Call): Option<Call> {
    match c
    case CallForType(t, v) => if !v.Null? && GoesLoose(env, t, v) then Some(CallLoose(v)) else None
    case CallLoose(v) =>
      if v.Map? && Explicit(v.entries).Some? then Some(CallForType(Parse(Explicit(v.entries).value), v)) else None
  }

  /** Such a map is handed to and fro for ever. */
  lemma {:induction false} EndlessExactly(env: Env, v: Value)
    requires v.Map? && Explicit(v.entries).Some?
    ensures HandsOn(env, CallLoose(v)).Some?
    ensures HandsOn(env, HandsOn(env, CallLoose(v)).value) == Some(CallLoose(v))
            <==> GoesLoose(env, Parse(Explicit(v.entries).value), v)
    ensures GoesLoose(env, Parse(Explicit(v.entries).value), v) ==> Loose(env, v).Endless?
  {
    hide Parse, Explicit, GoesLoose;
  }

  // ------------------------------------------------------------------
  // Why both names must be classified alike

  /** A value of the outer type with one of the inner type in it. */
  function Nested(inner: string, outer: string): Value {
    Map(map["x" := Map(map[][TYPE_KEY := Str(inner)])][TYPE_KEY := Str(outer)])
  }

  /** An enum that is not one under its wire name: the first time its fields are left as they
      are, the second time they are normalized. */
  lemma {:induction false} EnumByOneNameOnly(env: Env, n: string)
    requires SoundNames(env) && PlainName(n) && n != OBJECT
    requires var w := WireName(env.store, n); w != n && env.isEnum(n) && !env.isEnum(w) && env.role(w).UserType?
    requires FieldType(env, WireName(env.store, n), "x") == None
    ensures var w := WireName(env.store, n);
            && Loose(env, Nested(n, n)) == Ok(Nested(n, w)) && Loose(env, Nested(n, w)) == Ok(Nested(w, w))
            && Nested(w, w) != Nested(n, w)
  {
    var w := WireName(env.store, n);
    NameSettles(env, n);
    hide StoreName, WireName, SoundNames, Loose, Trim, Parse, FieldType, Nested;
    EnumFirst(env, n, w);
    EnumSecond(env, n, w);
    NestedDiffer(n, w);
  }

  lemma {:induction false} NestedDiffer(n: string, w: string)
    requires n != w
    ensures Nested(w, w) != Nested(n, w)
  {
    assert Nested(w, w).entries["x"].entries[TYPE_KEY] != Nested(n, w).entries["x"].entries[TYPE_KEY];
  }

  lemma {:induction false} EnumFirst(env: Env, n: string, w: string)
    requires PlainName(n) && n != OBJECT && env.isEnum(n) && w == WireName(env.store, n)
    ensures Loose(env, Nested(n, n)) == Ok(Nested(n, w))
  {
    var m := map["x" := Map(map[][TYPE_KEY := Str(n)])];
    hide Loose, PlainName;
    EnumOnce(env, n, w, m);
    assert m[TYPE_KEY := Str(n)][TYPE_KEY := Str(w)] == m[TYPE_KEY := Str(w)];
  }

  lemma {:induction false} EnumSecond(env: Env, n: string, w: string)
    requires PlainName(n) && n != OBJECT && env.isEnum(n) && w == WireName(env.store, n)
    requires PlainName(w) && w != OBJECT && WireName(env.store, w) == w && !env.isEnum(w) && env.role(w).UserType?
    requires FieldType(env, w, "x") == None
    ensures Loose(env, Nested(n, w)) == Ok(Nested(w, w))
  {
    var m := map["x" := Map(map[][TYPE_KEY := Str(n)])];
    var rest := map["x" := Map(map[][TYPE_KEY := Str(w)])];
    assert map[][TYPE_KEY := Str(n)][TYPE_KEY := Str(w)] == map[][TYPE_KEY := Str(w)];
    assert Admissible(env, w, w);
    EnumOnce(env, n, w, map[]);
    hide Loose, Admissible, WireName, FieldType, Object, Parse, Trim;
    ObjectFrom(env, w, w, m, rest);
    LooseAs(env, w, m);
  }

  lemma {:induction false} LooseAs(env: Env, w: string, m: map<string, Value>)
    requires PlainName(w) && w != OBJECT && !env.isEnum(w) && env.role(w).UserType?
    ensures Loose(env, Map(m[TYPE_KEY := Str(w)])) == Object(env, w, Map(m[TYPE_KEY := Str(w)]))
  {
    ExplicitSet(m, w);
    hide Explicit, Object;
  }

  lemma {:induction false} EnumOnce(env: Env, n: string, w: string, m: map<string, Value>)
    requires PlainName(n) && n != OBJECT && env.isEnum(n) && w == WireName(env.store, n)
    ensures Loose(env, Map(m[TYPE_KEY := Str(n)])) == Ok(Map(m[TYPE_KEY := Str(n)][TYPE_KEY := Str(w)]))
  {
    ExplicitSet(m, n);
    hide Explicit, WireName;
  }
}

/** What normalizing makes of an argument, said as a relation between the two. */
module NormalForms {
  import opened Options
  import opened TypeLanguage
  import opened BinaryNames
  import opened Normalization

  // ------------------------------------------------------------------
  // The relation

  /** The map says itself what it is. */
  predicate Tells(m: map<string, Value>) {
    "@type" in m && m["@type"].Str? && Trim(m["@type"].s) != ""
  }

  /** The class the map is of: the one it tells, otherwise the declared one. */
  function ClassNamed(m: map<string, Value>, declared: string): string {
    if Tells(m) then Trim(m["@type"].s) else declared
  }

  /** A map that calls itself the class by its wire name, with the keys of m and no others. */
  ghost predicate Carries(env: Env, m: map<string, Value>, name: string, r: Value) {
    && r.Map? && r.entries.Keys == m.Keys + {"@type"}
    && r.entries["@type"] == Str(WireName(env.store, name))
  }

  /** An enum constant is an object with its name; the entries of a map stay as they are. */
  ghost predicate EnumBecomes(env: Env, base: string, v: Value, r: Value) {
    match v
    case Str(s) =>
      && r.Map? && r.entries.Keys == {"@type", "name"}
      && r.entries["@type"] == Str(WireName(env.store, base)) && r.entries["name"] == Str(s)
    case Map(m) => Carries(env, m, ClassNamed(m, base), r) && forall k | k in m && k != "@type" :: r.entries[k] == m[k]
    case _ => r == v
  }

  /** A decimal with this text. */
  predicate Decimal(base: string, text: string, r: Value) {
    r.Map? && r.entries.Keys == {"@type", "value"} && r.entries["@type"] == Str(base) && r.entries["value"] == Str(text)
  }

  /** Decimals by their text, which a map has under "value"; whatever has none stays as it is.
      Other scalars as they are read. */
  ghost predicate ScalarBecomes(env: Env, base: string, v: Value, r: Value) {
    if base == "java.math.BigDecimal" || base == "java.math.BigInteger" then
      && (v.Map? && Tells(v.entries) ==> Trim(v.entries["@type"].s) == base)
      && var text := if v.Map? then (if "value" in v.entries then env.decimal(v.entries["value"]) else None) else env.decimal(v);
         if text.Some? then Decimal(base, text.value, r) else r == v
    else r == if v.Map? || v.List? || v.Null? then v else env.coerce(base, v)
  }

  /** r is what the type makes of v. A type that v told itself is asked only once. */
  ghost predicate Becomes(env: Env, t: TypeSpec, v: Value, r: Value, told: bool)
    decreases v, if told then 2 else 4
  {
    if v == Null then r == Null
    else if t == TypeSpec("", [], 0, NoWildcard) then !told && LooselyBecomes(env, v, r)
    else
      var base := if t.wildcard != NoWildcard && t.base == "" then "java.lang.Object" else t.base;
      if base == "" || base == "java.lang.Object" then !told && LooselyBecomes(env, v, r)
      else if t.arrayDepth > 0 then v.List? && ItemsBecome(env, TypeSpec(base, t.args, t.arrayDepth - 1, NoWildcard), v, r)
      else if env.isEnum(base) then EnumBecomes(env, base, v, r)
      else
        match env.role(base)
        case Container =>
          if env.isMap(base) then
            v.Map? && if |t.args| < 2 then !told && LooselyBecomes(env, v, r) else EntriesBecome(env, t.args[1], v, r)
          else
            v.List? && if t.args == [] then !told && LooselyBecomes(env, v, r) else ItemsBecome(env, t.args[0], v, r)
        case Passthrough => ScalarBecomes(env, base, v, r)
        case UserType =>
          if v.Str? && base !in env.store then
            r.Map? && r.entries.Keys == {"@type", "name"} && r.entries["@type"] == Str(base) && r.entries["name"] == v
          else v.Map? && ObjectBecomes(env, base, v, r)
        case Unknown => !told && LooselyBecomes(env, v, r)
  }

  ghost predicate ItemsBecome(env: Env, t: TypeSpec, v: Value, r: Value)
    requires v.List?
    decreases v, 0
  {
    r.List? && |r.items| == |v.items| && forall i | 0 <= i < |v.items| :: Becomes(env, t, v.items[i], r.items[i], false)
  }

  ghost predicate EntriesBecome(env: Env, t: TypeSpec, v: Value, r: Value)
    requires v.Map?
    decreases v, 0
  {
    r.Map? && r.entries.Keys == v.entries.Keys && forall k | k in v.entries :: Becomes(env, t, v.entries[k], r.entries[k], false)
  }

  /** An object of an admissible class: each field by its declared type, if the class is known
      and declares it. */
  ghost predicate ObjectBecomes(env: Env, base: string, v: Value, r: Value)
    requires v.Map?
    decreases v, 1
  {
    var name := ClassNamed(v.entries, base);
    var known := StoreName(env.store, name);
    && (Tells(v.entries) ==> MayStand(env, base, name))
    && Carries(env, v.entries, name, r)
    && forall k | k in v.entries && k != "@type" ::
         FieldBecomes(env, if known in env.store then env.fields(known) else map[], k, v.entries[k], r.entries[k])
  }

  ghost predicate FieldBecomes(env: Env, fields: map<string, string>, k: string, v: Value, r: Value)
    decreases v, 5
  {
    if k in fields then Becomes(env, Parse(fields[k]), v, r, false) else LooselyBecomes(env, v, r)
  }

  /** The class is not known or of no matter, is the declared one, or is accepted for it. */
  predicate MayStand(env: Env, declared: string, actual: string) {
    var d, a := StoreName(env.store, RawName(declared)), StoreName(env.store, RawName(actual));
    a == d || d == "java.lang.Object" || d == "" || a == "" || env.assignable(a, d)
  }

  /** What becomes of a value no type is declared for: a map that tells its class is of it. */
  ghost predicate LooselyBecomes(env: Env, v: Value, r: Value)
    decreases v, 3
  {
    match v
    case Map(m) =>
      if Tells(m) then Becomes(env, Parse(Trim(m["@type"].s)), v, r, true)
      else r.Map? && r.entries.Keys == m.Keys && forall k | k in m :: LooselyBecomes(env, m[k], r.entries[k])
    case List(s) => r.List? && |r.items| == |s| && forall i | 0 <= i < |s| :: LooselyBecomes(env, s[i], r.items[i])
    case _ => r == v
  }

  // ------------------------------------------------------------------
  // The functions compute it

  lemma {:induction false} TellsIs(m: map<string, Value>, base: string)
    ensures Tells(m) <==> Explicit(m).Some?
    ensures Tells(m) ==> Explicit(m) == Some(ClassNamed(m, base))
  {
  }

  lemma {:induction false} EnumIs(env: Env, base: string, v: Value, r: Value)
    ensures Enum(env, base, v) == r <==> EnumBecomes(env, base, v, r)
  {
    hide WireName, Trim;
    match v {
      case Str(s) =>
        if EnumBecomes(env, base, v, r) { assert r.entries == Enum(env, base, v).entries; }
      case Map(m) =>
        TellsIs(m, base);
        if EnumBecomes(env, base, v, r) { assert r.entries == Enum(env, base, v).entries; }
      case _ =>
    }
  }

  lemma {:induction false} DecimalIs(base: string, text: string, r: Value)
    ensures r == DecimalObject(base, text) <==> Decimal(base, text, r)
  {
    if Decimal(base, text, r) { assert r.entries == DecimalObject(base, text).entries; }
  }

  lemma {:induction false} ScalarIs(env: Env, base: string, v: Value, r: Value)
    ensures Scalar(env, base, v) == Ok(r) <==> ScalarBecomes(env, base, v, r)
  {
    hide Trim, Decimal, DecimalObject, Explicit, Tells;
    if v.Map? { TellsIs(v.entries, base); }
    forall text ensures r == DecimalObject(base, text) <==> Decimal(base, text, r) { DecimalIs(base, text, r); }
    if v.Map? && Tells(v.entries) { TellsTrimmed(v.entries, base); }
  }

  lemma {:induction false} TellsTrimmed(m: map<string, Value>, base: string)
    requires Tells(m)
    ensures "@type" in m && m["@type"].Str? && ClassNamed(m, base) == Trim(m["@type"].s)
  {
  }

  lemma {:induction false} MayStandIs(env: Env, declared: string, actual: string)
    ensures Admissible(env, declared, actual) <==> MayStand(env, declared, actual)
  {
    hide StoreName, RawName;
  }

  lemma {:induction false} FieldIs(env: Env, typeName: string, k: string, v: Value, r: Value)
    ensures var known := StoreName(env.store, typeName);
            Entry(env, typeName, k, v) == Ok(r) <==>
            FieldBecomes(env, if known in env.store then env.fields(known) else map[], k, v, r)
    decreases v, 6
  {
    hide ForType, Loose, Becomes, LooselyBecomes, StoreName, Parse;
    var known := StoreName(env.store, typeName);
    if known in env.store && k in env.fields(known) {
      BecomesIs(env, Parse(env.fields(known)[k]), v, r);
    } else {
      LooselyIs(env, v, r);
    }
  }

  lemma {:induction false} ItemsIs(env: Env, t: TypeSpec, v: Value, r: Value)
    requires v.List?
    ensures ForItems(env, t, v) == Ok(r) <==> ItemsBecome(env, t, v, r)
    decreases v, 0
  {
    hide ForType, Becomes, ForItems;
    ItemsMean(env, t, v, r);
    if r.List? && |r.items| == |v.items| {
      forall i | 0 <= i < |v.items| ensures ForType(env, t, v.items[i]) == Ok(r.items[i]) <==> Becomes(env, t, v.items[i], r.items[i], false) {
        BecomesIs(env, t, v.items[i], r.items[i]);
      }
    }
  }

  lemma {:induction false} EntriesIs(env: Env, t: TypeSpec, v: Value, r: Value)
    requires v.Map?
    ensures ForEntries(env, t, v) == Ok(r) <==> EntriesBecome(env, t, v, r)
    decreases v, 0
  {
    hide ForType, Becomes, ForEntries;
    EntriesMean(env, t, v, r);
    if r.Map? && r.entries.Keys == v.entries.Keys {
      forall k | k in v.entries ensures ForType(env, t, v.entries[k]) == Ok(r.entries[k]) <==> Becomes(env, t, v.entries[k], r.entries[k], false) {
        BecomesIs(env, t, v.entries[k], r.entries[k]);
      }
    }
  }

  lemma {:induction false} ObjectIs(env: Env, base: string, v: Value, r: Value)
    requires v.Map?
    ensures Object(env, base, v) == Ok(r) <==> ObjectBecomes(env, base, v, r)
    decreases v, 1
  {
    hide Entry, FieldBecomes, StoreName, WireName, Trim, Admissible, MayStand, Explicit, Tells, Fields;
    var m := v.entries;
    var name := ClassNamed(m, base);
    TellsIs(m, base);
    NotTold(m, base);
    MayStandIs(env, base, name);
    if r.Map? {
      var rest := Map(r.entries - {"@type"});
      FieldsMean(env, name, v, rest);
      forall k | k in m && k != "@type" && k in r.entries
        ensures var known := StoreName(env.store, name);
                Entry(env, name, k, m[k]) == Ok(r.entries[k]) <==>
                FieldBecomes(env, if known in env.store then env.fields(known) else map[], k, m[k], r.entries[k])
      {
        FieldIs(env, name, k, m[k], r.entries[k]);
      }
    }
    ObjectFromRest(env, base, name, v, r);
  }

  lemma {:induction false} NotTold(m: map<string, Value>, base: string)
    ensures !Tells(m) ==> ClassNamed(m, base) == base
  {
  }

  /** The object is its other entries and the wire name. */
  lemma {:induction false} ObjectFromRest(env: Env, base: string, name: string, v: Value, r: Value)
    requires v.Map? && name == (if Explicit(v.entries).Some? then Explicit(v.entries).value else base)
    ensures Object(env, base, v) == Ok(r) <==>
            && (Explicit(v.entries).Some? ==> Admissible(env, base, name))
            && r.Map? && "@type" in r.entries && r.entries["@type"] == Str(WireName(env.store, name))
            && Fields(env, name, v) == Ok(Map(r.entries - {"@type"}))
  {
    hide Fields, Admissible, WireName, Explicit;
    var rest := Fields(env, name, v);
    if rest.Ok? { FieldsMean(env, name, v, rest.v); }
    if rest.Ok? && rest.v.Map? {
      var whole := rest.v.entries[TYPE_KEY := Str(WireName(env.store, name))];
      assert whole - {"@type"} == rest.v.entries;
      if r.Map? && "@type" in r.entries && r.entries["@type"] == Str(WireName(env.store, name)) && rest.v.entries == r.entries - {"@type"} {
        assert r.entries == whole;
      }
    }
  }

  /** A value that the type says something of. */
  lemma {:induction false} TypedIs(env: Env, t: TypeSpec, v: Value, r: Value, told: bool)
    requires !v.Null? && !GoesLoose(env, t, v)
    ensures Typed(env, Effective(t), v) == Ok(r) <==> Becomes(env, t, v, r, told)
    decreases v, 2
  {
    hide ForItems, ForEntries, Object, Scalar, Enum, EnumBecomes, ScalarBecomes, ItemsBecome, EntriesBecome, ObjectBecomes, LooselyBecomes;
    var e := Effective(t);
    if e.arrayDepth > 0 {
      if v.List? { ItemsIs(env, e.(arrayDepth := e.arrayDepth - 1), v, r); }
    } else if env.isEnum(e.base) {
      EnumIs(env, e.base, v, r);
    } else {
      match env.role(e.base) {
        case Container =>
          if v.Map? && env.isMap(e.base) { EntriesIs(env, e.args[1], v, r); }
          if v.List? && !env.isMap(e.base) { ItemsIs(env, e.args[0], v, r); }
        case Passthrough =>
          ScalarIs(env, e.base, v, r);
        case UserType =>
          if v.Map? { ObjectIs(env, e.base, v, r); } else { NamedIs(env, e.base, v, r); }
      }
    }
  }

  lemma {:induction false} NamedIs(env: Env, base: string, v: Value, r: Value)
    requires !v.Map?
    ensures Object(env, base, v) == Rejected
    ensures v.Str? ==> (r == EnumObject(base, v.s) <==>
              r.Map? && r.entries.Keys == {"@type", "name"} && r.entries["@type"] == Str(base) && r.entries["name"] == v)
  {
    if v.Str? && r.Map? && r.entries.Keys == {"@type", "name"} && r.entries["@type"] == Str(base) && r.entries["name"] == v {
      assert r.entries == EnumObject(base, v.s).entries;
    }
  }

  lemma {:induction false} LooseBecomes(env: Env, t: TypeSpec, v: Value, r: Value, told: bool)
    requires !v.Null? && GoesLoose(env, t, v)
    ensures Becomes(env, t, v, r, told) <==> !told && LooselyBecomes(env, v, r)
  {
    hide LooselyBecomes;
  }

  /** A declared type accepts a value and makes r of it, exactly when r is what becomes of it. */
  lemma {:induction false} BecomesIs(env: Env, t: TypeSpec, v: Value, r: Value)
    ensures ForType(env, t, v) == Ok(r) <==> Becomes(env, t, v, r, false)
    decreases v, 4
  {
    hide Typed, Loose, LooselyBecomes, GoesLoose, Becomes;
    if v.Null? {
      NullBecomes(env, t, r);
    } else if GoesLoose(env, t, v) {
      LooseBecomes(env, t, v, r, false);
      LooselyIs(env, v, r);
    } else {
      TypedIs(env, t, v, r, false);
    }
  }

  lemma {:induction false} NullBecomes(env: Env, t: TypeSpec, r: Value)
    ensures Becomes(env, t, Null, r, false) <==> r == Null
  {
  }

  /** The same where no type is declared. */
  lemma {:induction false} LooselyIs(env: Env, v: Value, r: Value)
    ensures Loose(env, v) == Ok(r) <==> LooselyBecomes(env, v, r)
    decreases v, 3
  {
    hide Typed, GoesLoose, Becomes, ForType, Parse, Trim, LooseItems, LooseEntries;
    match v {
      case Map(m) =>
        TellsIs(m, "");
        if Tells(m) {
          TellsTrimmed(m, "");
          var t := Parse(Trim(m["@type"].s));
          if GoesLoose(env, t, v) { LooseBecomes(env, t, v, r, true); } else { TypedIs(env, t, v, r, true); }
        } else {
          EntriesMean(env, ZERO, v, r);
          if r.Map? && r.entries.Keys == m.Keys {
            forall k | k in m ensures Loose(env, m[k]) == Ok(r.entries[k]) <==> LooselyBecomes(env, m[k], r.entries[k]) {
              LooselyIs(env, m[k], r.entries[k]);
            }
          }
        }
      case List(s) =>
        ItemsMean(env, ZERO, v, r);
        if r.List? && |r.items| == |s| {
          forall i | 0 <= i < |s| ensures Loose(env, s[i]) == Ok(r.items[i]) <==> LooselyBecomes(env, s[i], r.items[i]) {
            LooselyIs(env, s[i], r.items[i]);
          }
        }
      case _ =>
    }
  }

  /** The arguments of a call are accepted exactly when there is one for each declared type and
      each becomes something; and then it is that. */
  lemma {:induction false} ArgsBecome(env: Env, types: seq<string>, args: seq<Value>, out: seq<Value>)
    ensures NormalizeArgs(env, types, args) == Ok(List(out)) <==>
            |types| == |args| == |out| && forall i | 0 <= i < |args| :: Becomes(env, Parse(types[i]), args[i], out[i], false)
  {
    hide ForType, Collect, Becomes, Parse;
    if |types| == |args| {
      Collected(seq(|args|, i requires 0 <= i < |args| => ForType(env, Parse(types[i]), args[i])), List(out));
      if |out| == |args| {
        forall i | 0 <= i < |args|
          ensures ForType(env, Parse(types[i]), args[i]) == Ok(out[i]) <==> Becomes(env, Parse(types[i]), args[i], out[i], false)
        {
          BecomesIs(env, Parse(types[i]), args[i], out[i]);
        }
      }
    }
  }
}

/** The sample value shown for a parameter type. Classes are written out field by field,
    and a class inside itself is only named. */
module Skeletons {
  import opened Sets
  import opened TypeLanguage

  datatype Role = Passthrough | Container | UserType | Unknown

  datatype FieldDecl = FieldDecl(name: string, javaType: string)

  datatype ClassDecl = ClassDecl(isEnum: bool, fields: seq<FieldDecl>)

  /** What is known of types: the classes in the store, with their own and inherited
      fields, and how any name is classified. */
  datatype Types = Types(store: map<string, ClassDecl>, role: string -> Role, isEnum: string -> bool, isMap: string -> bool)

  datatype Skeleton =
    | Null
    | Scalar(base: string)
    | Enum(fqn: string)
    | Stub(fqn: string)
    | Array(element: Skeleton)
    | EmptyArray
    | MapOf(value: Skeleton)
    | EmptyMap
    | Object(fqn: string, entries: seq<(string, Skeleton)>)

  /** Adds an entry, or replaces the one of that name. */
  function Put(entries: seq<(string, Skeleton)>, name: string, v: Skeleton): (r: seq<(string, Skeleton)>)
    ensures forall e | e in r :: e in entries || e.1 == v
  {
    if entries == [] then [(name, v)]
    else if entries[0].0 == name then [(name, v)] + entries[1..]
    else
      var rest := Put(entries[1..], name, v);
      [entries[0]] + rest
  }

  /** How deep a type is written. */
  function Size(t: TypeSpec): nat {
    1 + t.arrayDepth + ArgsSize(t.args)
  }

  function ArgsSize(ts: seq<TypeSpec>): (n: nat)
    ensures forall i | 0 <= i < |ts| :: Size(ts[i]) <= n
  {
    if ts == [] then 0 else Size(ts[0]) + ArgsSize(ts[1..])
  }

  // ------------------------------------------------------------------
  // The skeleton of a type inside given classes

  function Build(types: Types, t: TypeSpec, inside: set<string>): Skeleton
    decreases |types.store.Keys - inside|, 0, Size(t)
  {
    if t == ZERO then Null
    else
      var e := Effective(t);
      if e.arrayDepth > 0 then Array(Build(types, e.(arrayDepth := e.arrayDepth - 1), inside))
      else if types.isEnum(e.base) then Enum(e.base)
      else match types.role(e.base)
        case Passthrough => Scalar(e.base)
        case Container =>
          if types.isMap(e.base) then
            if |e.args| < 2 then EmptyMap else MapOf(Build(types, e.args[1], inside))
          else if |e.args| < 1 then EmptyArray else Array(Build(types, e.args[0], inside))
        case UserType =>
          if e.base in inside then Stub(e.base)
          else if e.base !in types.store then Stub(e.base)
          else if types.store[e.base].isEnum then Enum(e.base)
          else
            OneLess(types.store.Keys, inside, e.base);
            Object(e.base, BuildFields(types, types.store[e.base].fields, inside + {e.base}, [("@type", Scalar(e.base))]))
        case Unknown => Null
  }

  function BuildFields(types: Types, fields: seq<FieldDecl>, inside: set<string>, entries: seq<(string, Skeleton)>): seq<(string, Skeleton)>
    decreases |types.store.Keys - inside|, 1, |fields|
  {
    if fields == [] then entries
    else
      BuildFields(types, fields[1..], inside, Put(entries, fields[0].name, Build(types, Parse(fields[0].javaType), inside)))
  }

  // ------------------------------------------------------------------
  // What a skeleton shows

  /** The skeleton shows the type, inside the classes that are being written out. */
  ghost predicate Shows(types: Types, t: TypeSpec, inside: set<string>, s: Skeleton)
    decreases |types.store.Keys - inside|, 0, Size(t)
  {
    if t == TypeSpec("", [], 0, NoWildcard) then s.Null?
    else
      var base := if t.wildcard != NoWildcard && t.base == "" then "java.lang.Object" else t.base;
      if t.arrayDepth > 0 then s.Array? && Shows(types, TypeSpec(base, t.args, t.arrayDepth - 1, NoWildcard), inside, s.element)
      else if types.isEnum(base) then s == Enum(base)
      else
        match types.role(base)
        case Passthrough => s == Scalar(base)
        case Container =>
          if types.isMap(base) then
            if |t.args| >= 2 then s.MapOf? && Shows(types, t.args[1], inside, s.value) else s.EmptyMap?
          else if t.args != [] then s.Array? && Shows(types, t.args[0], inside, s.element)
          else s.EmptyArray?
        case UserType =>
          if base in inside || base !in types.store then s == Stub(base)
          else if types.store[base].isEnum then s == Enum(base)
          else
            OneLess(types.store.Keys, inside, base);
            s.Object? && s.fqn == base && ShowsFields(types, base, types.store[base].fields, inside + {base}, s.entries)
        case Unknown => s.Null?
  }

  /** The class's name comes first. Then there is one entry for each field name, in the order of
      their first declarations, and each shows the type of the last. */
  ghost predicate ShowsFields(types: Types, fqn: string, fields: seq<FieldDecl>, inside: set<string>, entries: seq<(string, Skeleton)>)
    decreases |types.store.Keys - inside|, 1
  {
    && entries != [] && entries[0].0 == "@type" && (Named(fields, "@type") || entries[0].1 == Scalar(fqn))
    && Apart(entries) && InOrder(fields, entries)
    && forall f, i | 0 <= i < |entries| && LastOf(fields, f, entries[i].0) ::
         Shows(types, Parse(fields[f].javaType), inside, entries[i].1)
  }

  predicate Named(fields: seq<FieldDecl>, name: string) {
    exists f :: 0 <= f < |fields| && fields[f].name == name
  }

  /** The declaration is the last of that name. */
  predicate LastOf(fields: seq<FieldDecl>, f: int, name: string) {
    0 <= f < |fields| && fields[f].name == name && !Named(fields[f + 1..], name)
  }

  predicate HasName(entries: seq<(string, Skeleton)>, name: string) {
    exists i :: 0 <= i < |entries| && entries[i].0 == name
  }

  predicate Apart(entries: seq<(string, Skeleton)>) {
    forall i, j | 0 <= i < j < |entries| :: entries[i].0 != entries[j].0
  }

  /** All fields have entries, and all entries but the first are of fields: of one in front of
      which there are only fields with earlier entries. */
  predicate InOrder(fields: seq<FieldDecl>, entries: seq<(string, Skeleton)>) {
    && (forall f | 0 <= f < |fields| :: HasName(entries, fields[f].name))
    && forall i | 0 < i < |entries| :: ComesAfter(fields, entries[..i], entries[i].0)
  }

  predicate ComesAfter(fields: seq<FieldDecl>, earlier: seq<(string, Skeleton)>, name: string) {
    exists f :: 0 <= f < |fields| && fields[f].name == name && forall g | 0 <= g < f :: HasName(earlier, fields[g].name)
  }

  /** An entry takes the place of the one of its name, or comes last. */
  ghost predicate PutGives(entries: seq<(string, Skeleton)>, name: string, r: seq<(string, Skeleton)>, v: Skeleton) {
    if HasName(entries, name) then
      |r| == |entries| && forall i | 0 <= i < |r| :: r[i] == if entries[i].0 == name then (name, v) else entries[i]
    else r == entries + [(name, v)]
  }

  lemma {:induction false} PutIs(entries: seq<(string, Skeleton)>, name: string, v: Skeleton)
    requires Apart(entries)
    ensures PutGives(entries, name, Put(entries, name, v), v)
    decreases |entries|
  {
    if entries != [] {
      var rest := entries[1..];
      assert HasName(rest, name) ==> HasName(entries, name) by {
        if i :| 0 <= i < |rest| && rest[i].0 == name { assert entries[i + 1].0 == name; }
      }
      if entries[0].0 != name {
        PutIs(rest, name, v);
        assert HasName(entries, name) ==> HasName(rest, name) by {
          if i :| 0 <= i < |entries| && entries[i].0 == name { assert rest[i - 1].0 == name; }
        }
      }
    }
  }

  lemma {:induction false} PutNames(entries: seq<(string, Skeleton)>, name: string, v: Skeleton, x: string)
    requires Apart(entries)
    ensures HasName(Put(entries, name, v), x) <==> HasName(entries, x) || x == name
    ensures Apart(Put(entries, name, v))
  {
    PutIs(entries, name, v);
    hide Put;
    var r := Put(entries, name, v);
    if i :| 0 <= i < |entries| && entries[i].0 == x { assert r[i].0 == x; }
    if HasName(entries, name) {
      var i :| 0 <= i < |entries| && entries[i].0 == name;
      assert r[i].0 == name;
      assert forall i | 0 <= i < |r| :: r[i].0 == entries[i].0;
    } else {
      assert r[|entries|].0 == name;
    }
  }

  lemma {:induction false} NamedOn(fields: seq<FieldDecl>, f: FieldDecl, x: string)
    ensures Named(fields + [f], x) <==> Named(fields, x) || f.name == x
  {
    var more := fields + [f];
    assert more[|fields|] == f;
    if i :| 0 <= i < |fields| && fields[i].name == x { assert more[i].name == x; }
  }

  lemma {:induction false} LastOn(fields: seq<FieldDecl>, d: FieldDecl, f: int, x: string)
    ensures LastOf(fields + [d], f, x) <==> if d.name == x then f == |fields| else LastOf(fields, f, x)
  {
    hide Named;
    var more := fields + [d];
    if 0 <= f < |fields| {
      assert more[f + 1..] == fields[f + 1..] + [d];
      NamedOn(fields[f + 1..], d, x);
    } else if f == |fields| {
      assert more[f + 1..] == [];
      NoneNamed(x);
    }
  }

  lemma {:induction false} NoneNamed(x: string)
    ensures !Named([], x)
  {
  }

  lemma {:induction false} AfterOn(fields: seq<FieldDecl>, d: FieldDecl, earlier: seq<(string, Skeleton)>, name: string)
    requires ComesAfter(fields, earlier, name)
    ensures ComesAfter(fields + [d], earlier, name)
  {
    hide HasName;
    var f :| 0 <= f < |fields| && fields[f].name == name && forall g | 0 <= g < f :: HasName(earlier, fields[g].name);
    assert (fields + [d])[f].name == name;
  }

  lemma {:induction false} AfterSame(fields: seq<FieldDecl>, earlier: seq<(string, Skeleton)>, other: seq<(string, Skeleton)>, name: string)
    requires ComesAfter(fields, earlier, name) && |earlier| == |other| && forall i | 0 <= i < |earlier| :: earlier[i].0 == other[i].0
    ensures ComesAfter(fields, other, name)
  {
    var f :| 0 <= f < |fields| && fields[f].name == name && forall g | 0 <= g < f :: HasName(earlier, fields[g].name);
    forall g | 0 <= g < f ensures HasName(other, fields[g].name) {
      assert HasName(earlier, fields[g].name);
      var i :| 0 <= i < |earlier| && earlier[i].0 == fields[g].name;
      assert other[i].0 == fields[g].name;
    }
  }

  lemma {:induction false} OrderOn(fields: seq<FieldDecl>, d: FieldDecl, entries: seq<(string, Skeleton)>, v: Skeleton)
    requires InOrder(fields, entries) && Apart(entries) && entries != []
    ensures InOrder(fields + [d], Put(entries, d.name, v))
  {
    hide *;
    var more, r := fields + [d], Put(entries, d.name, v);
    PutIs(entries, d.name, v);
    forall x ensures HasName(r, x) <==> HasName(entries, x) || x == d.name { PutNames(entries, d.name, v, x); }
    forall i: nat | 0 < i < |r| ensures ComesAfter(more, r[..i], r[i].0) { OrderAt(fields, d, entries, r, v, i); }
    Ordered(fields, d, entries, r);
  }

  lemma {:induction false} Ordered(fields: seq<FieldDecl>, d: FieldDecl, entries: seq<(string, Skeleton)>, r: seq<(string, Skeleton)>)
    requires InOrder(fields, entries) && forall x :: HasName(r, x) <==> HasName(entries, x) || x == d.name
    requires forall i: nat | 0 < i < |r| :: ComesAfter(fields + [d], r[..i], r[i].0)
    ensures InOrder(fields + [d], r)
  {
    hide HasName, ComesAfter;
  }

  lemma {:induction false} OrderAt(fields: seq<FieldDecl>, d: FieldDecl, entries: seq<(string, Skeleton)>, r: seq<(string, Skeleton)>, v: Skeleton, i: nat)
    requires InOrder(fields, entries) && PutGives(entries, d.name, r, v) && 0 < i < |r|
    ensures ComesAfter(fields + [d], r[..i], r[i].0)
  {
    hide HasName, ComesAfter;
    if i < |entries| {
      AfterOn(fields, d, entries[..i], entries[i].0);
      AfterSame(fields + [d], entries[..i], r[..i], entries[i].0);
    } else {
      assert r[..i] == entries;
      LastAfter(fields, d, entries);
    }
  }

  lemma {:induction false} LastAfter(fields: seq<FieldDecl>, d: FieldDecl, entries: seq<(string, Skeleton)>)
    requires forall f | 0 <= f < |fields| :: HasName(entries, fields[f].name)
    ensures ComesAfter(fields + [d], entries, d.name)
  {
    hide HasName;
    assert (fields + [d])[|fields|].name == d.name;
  }

  /** One more field. */
  lemma {:induction false} PutShows(types: Types, fqn: string, fields: seq<FieldDecl>, d: FieldDecl, inside: set<string>,
      entries: seq<(string, Skeleton)>, v: Skeleton)
    requires ShowsFields(types, fqn, fields, inside, entries) && Shows(types, Parse(d.javaType), inside, v)
    ensures ShowsFields(types, fqn, fields + [d], inside, Put(entries, d.name, v))
  {
    var more, r := fields + [d], Put(entries, d.name, v);
    OrderOn(fields, d, entries, v);
    PutNames(entries, d.name, v, "");
    PutIs(entries, d.name, v);
    NamedOn(fields, d, "@type");
    hide Put, Named, Apart, InOrder, LastOf, Shows, Parse;
    FirstStays(entries, d.name, r, v);
    forall f, i | 0 <= i < |r| && LastOf(more, f, r[i].0) ensures Shows(types, Parse(more[f].javaType), inside, r[i].1) {
      LastOn(fields, d, f, r[i].0);
      EntryFrom(entries, d.name, r, v, i);
      LastBound(fields, f, r[i].0);
    }
  }

  lemma {:induction false} LastBound(fields: seq<FieldDecl>, f: int, x: string)
    ensures LastOf(fields, f, x) ==> 0 <= f < |fields|
  {
  }

  lemma {:induction false} FirstStays(entries: seq<(string, Skeleton)>, name: string, r: seq<(string, Skeleton)>, v: Skeleton)
    requires PutGives(entries, name, r, v) && entries != []
    ensures r != [] && r[0].0 == entries[0].0 && (name != entries[0].0 ==> r[0] == entries[0])
  {
    hide HasName;
  }

  lemma {:induction false} EntryFrom(entries: seq<(string, Skeleton)>, name: string, r: seq<(string, Skeleton)>, v: Skeleton, i: nat)
    requires PutGives(entries, name, r, v) && i < |r|
    ensures if r[i].0 == name then r[i].1 == v else i < |entries| && r[i] == entries[i]
  {
    assert i < |entries| && entries[i].0 == name ==> HasName(entries, name);
  }

  lemma {:induction false} TypeShown(types: Types, fqn: string, inside: set<string>)
    ensures ShowsFields(types, fqn, [], inside, [("@type", Scalar(fqn))])
  {
    hide Shows;
  }

  /** The fields done so far, then the others. */
  lemma {:induction false} FieldsShown(types: Types, fqn: string, done: seq<FieldDecl>, fields: seq<FieldDecl>, inside: set<string>,
      entries: seq<(string, Skeleton)>)
    requires ShowsFields(types, fqn, done, inside, entries)
    ensures ShowsFields(types, fqn, done + fields, inside, BuildFields(types, fields, inside, entries))
    decreases |types.store.Keys - inside|, 1, |fields|
  {
    hide Build, Shows, ShowsFields, Parse, Put;
    if fields == [] {
      assert done + fields == done;
    } else {
      var v := Build(types, Parse(fields[0].javaType), inside);
      BuildShows(types, Parse(fields[0].javaType), inside);
      PutShows(types, fqn, done, fields[0], inside, entries, v);
      FieldsShown(types, fqn, done + [fields[0]], fields[1..], inside, Put(entries, fields[0].name, v));
      assert done + [fields[0]] + fields[1..] == done + fields;
    }
  }

  lemma {:induction false} BuildShows(types: Types, t: TypeSpec, inside: set<string>)
    ensures Shows(types, t, inside, Build(types, t, inside))
    decreases |types.store.Keys - inside|, 0, Size(t)
  {
    hide BuildFields, ShowsFields;
    if t != ZERO {
      var e := Effective(t);
      if e.arrayDepth > 0 {
        BuildShows(types, e.(arrayDepth := e.arrayDepth - 1), inside);
      } else if !types.isEnum(e.base) {
        match types.role(e.base) {
          case Container =>
            if types.isMap(e.base) {
              if |e.args| >= 2 { BuildShows(types, e.args[1], inside); }
            } else if |e.args| >= 1 {
              BuildShows(types, e.args[0], inside);
            }
          case UserType =>
            if e.base in types.store && e.base !in inside && !types.store[e.base].isEnum {
              OneLess(types.store.Keys, inside, e.base);
              var fields := types.store[e.base].fields;
              TypeShown(types, e.base, inside + {e.base});
              FieldsShown(types, e.base, [], fields, inside + {e.base}, [("@type", Scalar(e.base))]);
              assert [] + fields == fields;
            }
          case _ =>
        }
      }
    }
  }

  // ------------------------------------------------------------------
  // The program

  class Builder {
    const types: Types
    var seen: set<string>

    constructor (types: Types)
      ensures this.types == types && seen == {}
    {
      this.types := types;
      seen := {};
    }

    /** Builds the skeleton inside the classes seen, and leaves those as they were. */
    method BuildValue(spec: TypeSpec) returns (r: Skeleton)
      modifies this
      ensures r == Build(types, spec, seen) && seen == old(seen)
      ensures Shows(types, spec, seen, r)
      decreases |types.store.Keys - seen|, 0, Size(spec), 2
    {
      BuildShows(types, spec, seen);
      hide Shows;
      if spec == ZERO {
        return Null;
      }
      var e := Effective(spec);
      if e.arrayDepth > 0 {
        var inner := BuildValue(e.(arrayDepth := e.arrayDepth - 1));
        return Array(inner);
      }
      if types.isEnum(e.base) {
        return Enum(e.base);
      }
      match types.role(e.base) {
        case Passthrough => r := Scalar(e.base);
        case Container => r := BuildContainer(e);
        case UserType =>
          r := BuildOnce(e.base);
        case Unknown => r := Null;
      }
    }

    /** A class is seen while it is written out. */
    method BuildOnce(fqn: string) returns (r: Skeleton)
      modifies this
      ensures seen == old(seen)
      ensures r == if fqn in seen || fqn !in types.store then Stub(fqn)
                   else if types.store[fqn].isEnum then Enum(fqn)
                   else Object(fqn, BuildFields(types, types.store[fqn].fields, seen + {fqn}, [("@type", Scalar(fqn))]))
      decreases |types.store.Keys - seen|, 0, 0, 1
    {
      if fqn in seen {
        return Stub(fqn);
      }
      if fqn !in types.store {
        return Stub(fqn);
      }
      OneLess(types.store.Keys, seen, fqn);
      seen := seen + {fqn};
      r := BuildUserType(fqn);
      seen := seen - {fqn};
      assert seen == old(seen);
    }

    method BuildContainer(e: TypeSpec) returns (r: Skeleton)
      modifies this
      ensures seen == old(seen)
      ensures r == if types.isMap(e.base) then if |e.args| < 2 then EmptyMap else MapOf(Build(types, e.args[1], seen))
                   else if |e.args| < 1 then EmptyArray else Array(Build(types, e.args[0], seen))
      decreases |types.store.Keys - seen|, 0, Size(e), 1
    {
      if types.isMap(e.base) {
        if |e.args| < 2 {
          return EmptyMap;
        }
        var value := BuildValue(e.args[1]);
        return MapOf(value);
      }
      if |e.args| < 1 {
        return EmptyArray;
      }
      var element := BuildValue(e.args[0]);
      r := Array(element);
    }

    method BuildUserType(fqn: string) returns (r: Skeleton)
      requires fqn in types.store
      modifies this
      ensures seen == old(seen)
      ensures r == if types.store[fqn].isEnum then Enum(fqn)
                   else Object(fqn, BuildFields(types, types.store[fqn].fields, seen, [("@type", Scalar(fqn))]))
      decreases |types.store.Keys - seen|, 2, 0, 0
    {
      if types.store[fqn].isEnum {
        return Enum(fqn);
      }
      var fields := types.store[fqn].fields;
      var entries := [("@type", Scalar(fqn))];
      var i := 0;
      while i < |fields|
        invariant 0 <= i <= |fields| && seen == old(seen)
        invariant BuildFields(types, fields[i..], seen, entries) == BuildFields(types, fields, seen, [("@type", Scalar(fqn))])
      {
        var spec := ParseTypeSpec(fields[i].javaType);
        var v := BuildValue(spec);
        assert fields[i..][1..] == fields[i + 1..];
        entries := Put(entries, fields[i].name, v);
        i := i + 1;
      }
      r := Object(fqn, entries);
    }
  }

  /** One skeleton for each parameter type, each from outside all classes. */
  method BuildSkeleton(types: Types, paramTypes: seq<string>) returns (out: seq<Skeleton>)
    ensures |out| == |paramTypes| && forall i | 0 <= i < |out| :: Shows(types, Parse(paramTypes[i]), {}, out[i])
  {
    hide Shows, Parse, Build;
    out := [];
    var i := 0;
    while i < |paramTypes|
      invariant 0 <= i == |out| <= |paramTypes|
      invariant forall j | 0 <= j < i :: Shows(types, Parse(paramTypes[j]), {}, out[j])
    {
      var builder := new Builder(types);
      var spec := ParseTypeSpec(paramTypes[i]);
      var v := builder.BuildValue(spec);
      out := out + [v];
      i := i + 1;
    }
  }

  // ------------------------------------------------------------------
  // What a skeleton looks like

  /** No class is written out inside itself, and every class of the store is written out where
      it does not stand inside itself. */
  ghost predicate WellExpanded(types: Types, s: Skeleton, inside: set<string>)
    decreases s
  {
    match s
    case Object(fqn, entries) =>
      fqn in types.store && fqn !in inside && forall i | 0 <= i < |entries| :: WellExpanded(types, entries[i].1, inside + {fqn})
    case Stub(fqn) => fqn in inside || fqn !in types.store
    case Array(e) => WellExpanded(types, e, inside)
    case MapOf(v) => WellExpanded(types, v, inside)
    case _ => true
  }

  ghost predicate EntriesExpanded(types: Types, entries: seq<(string, Skeleton)>, inside: set<string>) {
    forall e | e in entries :: WellExpanded(types, e.1, inside)
  }

  lemma {:induction false} BuildExpands(types: Types, t: TypeSpec, inside: set<string>)
    ensures WellExpanded(types, Build(types, t, inside), inside)
    decreases |types.store.Keys - inside|, 0, Size(t)
  {
    if t != ZERO {
      var e := Effective(t);
      if e.arrayDepth > 0 {
        BuildExpands(types, e.(arrayDepth := e.arrayDepth - 1), inside);
      } else if !types.isEnum(e.base) {
        match types.role(e.base) {
          case Container =>
            if types.isMap(e.base) {
              if |e.args| >= 2 { BuildExpands(types, e.args[1], inside); }
            } else if |e.args| >= 1 {
              BuildExpands(types, e.args[0], inside);
            }
          case UserType =>
            if e.base in types.store && e.base !in inside && !types.store[e.base].isEnum {
              OneLess(types.store.Keys, inside, e.base);
              FieldsExpand(types, types.store[e.base].fields, inside + {e.base}, [("@type", Scalar(e.base))]);
            }
          case _ =>
        }
      }
    }
  }

  lemma {:induction false} FieldsExpand(types: Types, fields: seq<FieldDecl>, inside: set<string>, entries: seq<(string, Skeleton)>)
    requires EntriesExpanded(types, entries, inside)
    ensures EntriesExpanded(types, BuildFields(types, fields, inside, entries), inside)
    decreases |types.store.Keys - inside|, 1, |fields|
  {
    if fields != [] {
      BuildExpands(types, Parse(fields[0].javaType), inside);
      var v := Build(types, Parse(fields[0].javaType), inside);
      FieldsExpand(types, fields[1..], inside, Put(entries, fields[0].name, v));
    }
  }
}

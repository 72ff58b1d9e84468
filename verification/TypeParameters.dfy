/** Type names in Java source made canonical. A type parameter stands for its bound, and a
    bound may mention parameters again, its own among them. */
module TypeParameters {
  import opened Options
  import opened Sets
  import opened TypeLanguage

  /** The names that are visible where the type is written: the bounds of the type
      parameters, and how any other name is known. */
  datatype Scope = Scope(
    typeParams: map<string, string>,
    localTypes: map<string, string>,
    explicit: map<string, string>,
    pkg: string,
    onDemand: seq<string>,
    project: map<string, map<string, string>>,
    platform: map<string, map<string, string>>)

  datatype Known = Found(fqn: string) | Ambiguous | NotFound

  const PRIMITIVES: set<string> := {"boolean", "byte", "short", "int", "long", "float", "double", "char", "void"}

  // ------------------------------------------------------------------
  // Names that are no type parameters

  function Symbol(table: map<string, map<string, string>>, pkg: string, simple: string): Option<string> {
    if simple != "" && pkg in table && simple in table[pkg] then Some(table[pkg][simple]) else None
  }

  function PackageSymbol(sc: Scope, pkg: string, simple: string): Option<string> {
    if Symbol(sc.project, pkg, simple).Some? then Symbol(sc.project, pkg, simple) else Symbol(sc.platform, pkg, simple)
  }

  /** The classes a table has for a package. */
  function ClassesIn(table: map<string, map<string, string>>, pkg: string): map<string, string> {
    if pkg in table then table[pkg] else map[]
  }

  /** The package has the class under the simple name: the project's if it has one, otherwise
      the platform's. */
  predicate InPackage(sc: Scope, pkg: string, simple: string, fqn: string) {
    var own, platform := ClassesIn(sc.project, pkg), ClassesIn(sc.platform, pkg);
    && simple != ""
    && ((simple in own && own[simple] == fqn) || (simple !in own && simple in platform && platform[simple] == fqn))
  }

  lemma {:induction false} PackageSymbolIs(sc: Scope, pkg: string, simple: string, fqn: string)
    ensures PackageSymbol(sc, pkg, simple) == Some(fqn) <==> InPackage(sc, pkg, simple, fqn)
  {
  }

  /** Some import of the first n offers the class under the simple name. */
  ghost predicate Offered(sc: Scope, simple: string, n: nat, fqn: string) {
    exists i :: 0 <= i < n && i < |sc.onDemand| && sc.onDemand[i] != "" && InPackage(sc, sc.onDemand[i], simple, fqn)
  }

  /** The classes the on-demand imports offer, each once. */
  method OnDemand(sc: Scope, simple: string) returns (r: Known)
    ensures RightlyFound(sc, simple, r)
    ensures r == OnDemandOf(sc, simple)
  {
    var candidates: seq<string> := [];
    var i := 0;
    while i < |sc.onDemand|
      invariant 0 <= i <= |sc.onDemand| && candidates == CandidatesOf(sc, simple, i)
    {
      hide PackageSymbol;
      var prefix := sc.onDemand[i];
      if prefix != "" {
        var fqn := PackageSymbol(sc, prefix, simple);
        if fqn.Some? && fqn.value !in candidates {
          candidates := candidates + [fqn.value];
        }
      }
      i := i + 1;
    }
    OnDemandMeans(sc, simple);
    hide RightlyFound, CandidatesOf;
    if |candidates| == 1 {
      r := Found(candidates[0]);
    } else if |candidates| > 1 {
      r := Ambiguous;
    } else {
      r := NotFound;
    }
  }

  /** Found exactly when the imports offer one class and no other, and then that one; not
      found exactly when they offer none. */
  ghost predicate RightlyFound(sc: Scope, simple: string, r: Known) {
    && (r.Found? <==> exists fqn :: OnlyOffer(sc, simple, fqn))
    && (r.Found? ==> OnlyOffer(sc, simple, r.fqn))
    && (r.NotFound? <==> forall g :: !Offered(sc, simple, |sc.onDemand|, g))
  }

  ghost predicate OnlyOffer(sc: Scope, simple: string, fqn: string) {
    Offered(sc, simple, |sc.onDemand|, fqn) && forall g :: Offered(sc, simple, |sc.onDemand|, g) ==> g == fqn
  }

  lemma {:induction false} OnDemandMeans(sc: Scope, simple: string)
    ensures RightlyFound(sc, simple, OnDemandOf(sc, simple))
  {
    CandidatesAre(sc, simple, |sc.onDemand|);
    var candidates := CandidatesOf(sc, simple, |sc.onDemand|);
    hide Offered, CandidatesOf;
    if |candidates| == 1 {
      forall g | Offered(sc, simple, |sc.onDemand|, g) ensures g == candidates[0] {
        assert g in candidates;
      }
      assert candidates[0] in candidates;
      assert OnlyOffer(sc, simple, candidates[0]);
    } else if |candidates| > 1 {
      assert candidates[0] in candidates && candidates[1] in candidates;
      forall fqn ensures !OnlyOffer(sc, simple, fqn) {
      }
    } else {
      forall g ensures !Offered(sc, simple, |sc.onDemand|, g) {
        assert g !in candidates;
      }
    }
  }

  lemma {:induction false} CandidatesAre(sc: Scope, simple: string, n: nat)
    requires n <= |sc.onDemand|
    ensures forall g :: g in CandidatesOf(sc, simple, n) <==> Offered(sc, simple, n, g)
    ensures forall j, k | 0 <= j < k < |CandidatesOf(sc, simple, n)| :: CandidatesOf(sc, simple, n)[j] != CandidatesOf(sc, simple, n)[k]
    decreases n
  {
    hide PackageSymbol, Offered;
    if n == 0 {
      forall g ensures !Offered(sc, simple, 0, g) { NoneOffered(sc, simple, g); }
    } else {
      CandidatesAre(sc, simple, n - 1);
      forall g ensures Offered(sc, simple, n, g) <==>
                       Offered(sc, simple, n - 1, g)
                       || (sc.onDemand[n - 1] != "" && PackageSymbol(sc, sc.onDemand[n - 1], simple) == Some(g))
      {
        OneMoreOffers(sc, simple, n, g);
      }
    }
  }

  lemma {:induction false} NoneOffered(sc: Scope, simple: string, g: string)
    ensures !Offered(sc, simple, 0, g)
  {
  }

  lemma {:induction false} OneMoreOffers(sc: Scope, simple: string, n: nat, g: string)
    requires 0 < n <= |sc.onDemand|
    ensures Offered(sc, simple, n, g) <==>
            Offered(sc, simple, n - 1, g)
            || (sc.onDemand[n - 1] != "" && PackageSymbol(sc, sc.onDemand[n - 1], simple) == Some(g))
  {
    PackageSymbolIs(sc, sc.onDemand[n - 1], simple, g);
    hide InPackage, PackageSymbol;
  }

  function CandidatesOf(sc: Scope, simple: string, n: nat): seq<string>
    requires n <= |sc.onDemand|
  {
    if n == 0 then []
    else
      var before := CandidatesOf(sc, simple, n - 1);
      var fqn := PackageSymbol(sc, sc.onDemand[n - 1], simple);
      if sc.onDemand[n - 1] != "" && fqn.Some? && fqn.value !in before then before + [fqn.value] else before
  }

  function OnDemandOf(sc: Scope, simple: string): Known {
    var candidates := CandidatesOf(sc, simple, |sc.onDemand|);
    if |candidates| == 1 then Found(candidates[0]) else if |candidates| > 1 then Ambiguous else NotFound
  }

  function KnownSimple(sc: Scope, simple: string): Known {
    if simple == "" then NotFound
    else if simple in sc.localTypes then Found(sc.localTypes[simple])
    else if simple in sc.explicit then Found(sc.explicit[simple])
    else if Symbol(sc.project, sc.pkg, simple).Some? then Found(Symbol(sc.project, sc.pkg, simple).value)
    else if Symbol(sc.platform, "java.lang", simple).Some? then Found(Symbol(sc.platform, "java.lang", simple).value)
    else OnDemandOf(sc, simple)
  }

  /** A name is known itself, or through its part before the first dot. */
  function KnownBase(sc: Scope, base: string): Known {
    var whole := KnownSimple(sc, base);
    var dot := IndexOf(base, '.');
    if !whole.NotFound? || dot == |base| then whole
    else match KnownSimple(sc, base[..dot])
      case Found(fqn) => Found(fqn + base[dot..])
      case other => other
  }

  // ------------------------------------------------------------------
  // Whole types

  /** A resolved type, as it is put together again. */
  datatype Resolved =
    | Blank
    | AnyType
    | Upper(bound: Resolved)
    | Lower(bound: Resolved)
    | Name(name: string)
    | Type(base: Resolved, args: seq<Resolved>, arrays: nat)

  /** Pieces between commas outside all brackets, empty ones left out. */
  function Split(cur: string, rest: string, angle: nat, paren: nat, brace: nat): (r: seq<string>)
    ensures forall i | 0 <= i < |r| :: |r[i]| <= |cur| + |rest|
    decreases |rest|
  {
    var piece := if Trim(cur) != "" then [Trim(cur)] else [];
    if rest == "" then piece
    else
      var c, more := rest[0], rest[1..];
      if c == ',' && angle == 0 && paren == 0 && brace == 0 then piece + Split("", more, 0, 0, 0)
      else
        Split(cur + [c], more,
              if c == '<' then angle + 1 else if c == '>' && angle > 0 then angle - 1 else angle,
              if c == '(' then paren + 1 else if c == ')' && paren > 0 then paren - 1 else paren,
              if c == '{' then brace + 1 else if c == '}' && brace > 0 then brace - 1 else brace)
  }

  function Arguments(s: string): (r: seq<string>)
    ensures forall i | 0 <= i < |r| :: |r[i]| < |s|
  {
    var lt := IndexOf(s, '<');
    if lt == |s| then []
    else match Enclosed("", s[lt + 1..], 1)
      case Some(inner) => Split("", Trim(inner), 0, 0, 0)
      case None => []
  }

  /** The type, with the parameters in seen already being replaced by their bounds further
      out. In a template parameters stay. */
  function Resolve(sc: Scope, text: string, seen: set<string>, template: bool): Resolved
    decreases |sc.typeParams.Keys - seen|, |text|, 1
  {
    var s := Trim(text);
    if s == "" then Blank
    else if EXTENDS <= s then Upper(Resolve(sc, Trim(s[|EXTENDS|..]), seen, template))
    else if SUPER <= s then Lower(Resolve(sc, Trim(s[|SUPER|..]), seen, template))
    else if s == "?" then AnyType
    else
      var (t, arrays) := StripArrays(s);
      var args := Arguments(Trim(t));
      Type(ResolveBase(sc, BaseOf(Trim(t)), seen, template),
           seq(|args|, i requires 0 <= i < |args| => Resolve(sc, args[i], seen, template)),
           arrays)
  }

  function ResolveBase(sc: Scope, base: string, seen: set<string>, template: bool): Resolved
    decreases |sc.typeParams.Keys - seen|, |base|, 0
  {
    if base == "" then Blank
    else if base in PRIMITIVES then Name(base)
    else if base in sc.typeParams then
      if template then Name(base)
      else if Trim(sc.typeParams[base]) == "" then Name(OBJECT)
      else if base in seen then Name(OBJECT)
      else
        OneLess(sc.typeParams.Keys, seen, base);
        Resolve(sc, sc.typeParams[base], seen + {base}, template)
    else match KnownBase(sc, base)
      case Found(fqn) => Name(fqn)
      case _ => Name(base)
  }

  // ------------------------------------------------------------------
  // What is left

  ghost predicate Mentions(r: Resolved, name: string) {
    match r
    case Upper(b) => Mentions(b, name)
    case Lower(b) => Mentions(b, name)
    case Name(n) => n == name
    case Type(b, args, _) => Mentions(b, name) || exists i :: 0 <= i < |args| && Mentions(args[i], name)
    case _ => false
  }

  /** What names resolve to is never the name of a type parameter. */
  ghost predicate Apart(sc: Scope, name: string) {
    && name != OBJECT && name !in PRIMITIVES
    && forall base :: KnownBase(sc, base) != Found(name)
  }

  /** Whatever the bounds, also bounds that lead back to their own parameter, the parameter
      is gone. */
  lemma {:induction false} NoParameterLeft(sc: Scope, text: string, seen: set<string>, p: string)
    requires p in sc.typeParams && Apart(sc, p)
    ensures !Mentions(Resolve(sc, text, seen, false), p)
    decreases |sc.typeParams.Keys - seen|, |text|, 1
  {
    hide Trim, KnownBase, StripArrays, Arguments, BaseOf;
    var s := Trim(text);
    if s == "" {
    } else if EXTENDS <= s {
      NoParameterLeft(sc, Trim(s[|EXTENDS|..]), seen, p);
    } else if SUPER <= s {
      NoParameterLeft(sc, Trim(s[|SUPER|..]), seen, p);
    } else if s != "?" {
      var t := StripArrays(s).0;
      var args := Arguments(Trim(t));
      BaseGone(sc, BaseOf(Trim(t)), seen, p);
      forall i | 0 <= i < |args| ensures !Mentions(Resolve(sc, args[i], seen, false), p) {
        NoParameterLeft(sc, args[i], seen, p);
      }
    }
  }

  lemma {:induction false} BaseGone(sc: Scope, base: string, seen: set<string>, p: string)
    requires p in sc.typeParams && Apart(sc, p)
    ensures !Mentions(ResolveBase(sc, base, seen, false), p)
    decreases |sc.typeParams.Keys - seen|, |base|, 0
  {
    hide Trim, KnownBase;
    if base != "" && base !in PRIMITIVES && base in sc.typeParams && base !in seen && Trim(sc.typeParams[base]) != "" {
      OneLess(sc.typeParams.Keys, seen, base);
      NoParameterLeft(sc, sc.typeParams[base], seen + {base}, p);
    }
  }

  // ------------------------------------------------------------------
  // Bounds without cycles

  /** The name stands in the text as the name of a type. */
  ghost predicate Uses(text: string, name: string)
    decreases |text|
  {
    var s := Trim(text);
    if s == "" || s == "?" then false
    else if EXTENDS <= s then Uses(Trim(s[|EXTENDS|..]), name)
    else if SUPER <= s then Uses(Trim(s[|SUPER|..]), name)
    else
      var t := Trim(StripArrays(s).0);
      BaseOf(t) == name || exists i :: 0 <= i < |Arguments(t)| && Uses(Arguments(t)[i], name)
  }

  /** Bounds only use parameters of lower rank. */
  ghost predicate Acyclic(sc: Scope, rank: string -> nat) {
    forall p, q | p in sc.typeParams && q in sc.typeParams && Uses(sc.typeParams[p], q) :: rank(q) < rank(p)
  }

  /** The text only uses parameters of lower rank than any that has been seen. */
  ghost predicate Below(sc: Scope, rank: string -> nat, text: string, seen: set<string>) {
    forall q, x | q in sc.typeParams && Uses(text, q) && x in seen :: rank(q) < rank(x)
  }

  lemma {:induction false} SeenIrrelevant(sc: Scope, rank: string -> nat, text: string, seen: set<string>, seen': set<string>)
    requires Acyclic(sc, rank) && Below(sc, rank, text, seen) && Below(sc, rank, text, seen')
    ensures Resolve(sc, text, seen, false) == Resolve(sc, text, seen', false)
    decreases |sc.typeParams.Keys - seen|, |text|, 1
  {
    hide Trim, KnownBase, StripArrays, Arguments, BaseOf;
    var s := Trim(text);
    if s == "" {
    } else if EXTENDS <= s {
      SeenIrrelevant(sc, rank, Trim(s[|EXTENDS|..]), seen, seen');
    } else if SUPER <= s {
      SeenIrrelevant(sc, rank, Trim(s[|SUPER|..]), seen, seen');
    } else if s != "?" {
      var t := Trim(StripArrays(s).0);
      BaseIrrelevant(sc, rank, text, BaseOf(t), seen, seen');
      forall i | 0 <= i < |Arguments(t)|
        ensures Resolve(sc, Arguments(t)[i], seen, false) == Resolve(sc, Arguments(t)[i], seen', false)
      {
        assert forall q | Uses(Arguments(t)[i], q) :: Uses(text, q);
        SeenIrrelevant(sc, rank, Arguments(t)[i], seen, seen');
      }
    }
  }

  lemma {:induction false} BaseIrrelevant(sc: Scope, rank: string -> nat, text: string, base: string, seen: set<string>, seen': set<string>)
    requires Acyclic(sc, rank) && Below(sc, rank, text, seen) && Below(sc, rank, text, seen')
    requires Uses(text, base) && |base| <= |text|
    ensures ResolveBase(sc, base, seen, false) == ResolveBase(sc, base, seen', false)
    decreases |sc.typeParams.Keys - seen|, |base|, 0
  {
    hide Trim, KnownBase, Uses;
    if base in sc.typeParams && base != "" && base !in PRIMITIVES && Trim(sc.typeParams[base]) != "" {
      assert base !in seen && base !in seen';
      OneLess(sc.typeParams.Keys, seen, base);
      hide Resolve;
      BelowBound(sc, rank, text, base, seen);
      BelowBound(sc, rank, text, base, seen');
      SeenIrrelevant(sc, rank, sc.typeParams[base], seen + {base}, seen' + {base});
    }
  }

  lemma {:induction false} BelowBound(sc: Scope, rank: string -> nat, text: string, p: string, seen: set<string>)
    requires Acyclic(sc, rank) && Below(sc, rank, text, seen) && p in sc.typeParams && Uses(text, p)
    ensures Below(sc, rank, sc.typeParams[p], seen + {p})
  {
    hide Uses;
  }

  /** Where bounds have no cycle a parameter is exactly its bound, resolved. */
  lemma {:induction false} ParameterIsBound(sc: Scope, rank: string -> nat, p: string)
    requires Acyclic(sc, rank) && p in sc.typeParams && p != "" && p !in PRIMITIVES && Trim(sc.typeParams[p]) != ""
    ensures ResolveBase(sc, p, {}, false) == Resolve(sc, sc.typeParams[p], {}, false)
  {
    hide Trim, Uses;
    SeenIrrelevant(sc, rank, sc.typeParams[p], {} + {p}, {});
  }

  // ------------------------------------------------------------------
  // What names stand for

  /** Where a simple name is looked up, first to last. */
  function Tables(sc: Scope): (ts: seq<map<string, string>>)
    ensures |ts| == 4
  {
    [sc.localTypes, sc.explicit, ClassesIn(sc.project, sc.pkg), ClassesIn(sc.platform, "java.lang")]
  }

  /** The first table that has the name says what it is; if none has it, the on-demand imports. */
  ghost predicate SimpleIs(sc: Scope, simple: string, k: Known) {
    if simple == "" then k.NotFound?
    else
      var ts := Tables(sc);
      && (forall i | 0 <= i < |ts| && simple in ts[i] && (forall j | 0 <= j < i :: simple !in ts[j]) :: k == Found(ts[i][simple]))
      && ((forall i | 0 <= i < |ts| :: simple !in ts[i]) ==> RightlyFound(sc, simple, k))
  }

  lemma {:induction false} KnownSimpleIs(sc: Scope, simple: string)
    ensures SimpleIs(sc, simple, KnownSimple(sc, simple))
  {
    hide RightlyFound, OnDemandOf;
    OnDemandMeans(sc, simple);
    var ts := Tables(sc);
    if simple in ts[0] {
    } else if simple in ts[1] {
    } else if simple in ts[2] {
    } else if simple in ts[3] {
    }
  }

  /** The name itself is known; otherwise what stands before its first dot may be, and the rest
      is a class inside that one. */
  ghost predicate BaseIs(sc: Scope, base: string, k: Known) {
    exists whole ::
      SimpleIs(sc, base, whole) &&
      if whole.NotFound? && '.' in base then DottedIs(sc, base, k) else k == whole
  }

  ghost predicate DottedIs(sc: Scope, base: string, k: Known) {
    exists dot, outer :: 0 <= dot < |base| && base[dot] == '.' && '.' !in base[..dot] && SimpleIs(sc, base[..dot], outer)
                         && k == if outer.Found? then Found(outer.fqn + base[dot..]) else outer
  }

  lemma {:induction false} KnownBaseIs(sc: Scope, base: string)
    ensures BaseIs(sc, base, KnownBase(sc, base))
  {
    hide SimpleIs, KnownSimple;
    var dot := IndexOf(base, '.');
    KnownSimpleIs(sc, base);
    assert '.' in base <==> dot < |base|;
    if KnownSimple(sc, base).NotFound? && dot < |base| {
      KnownSimpleIs(sc, base[..dot]);
      assert DottedIs(sc, base, KnownBase(sc, base));
    }
  }

  /** What becomes of a name: primitives stay, a parameter is its resolved bound, or the class of
      all objects where there is none or where it is inside its own, or stays in a template. */
  ghost predicate NameBecomes(sc: Scope, base: string, seen: set<string>, template: bool, r: Resolved) {
    if base == "boolean" || base == "byte" || base == "short" || base == "int" || base == "long"
       || base == "float" || base == "double" || base == "char" || base == "void" then r == Name(base)
    else if base in sc.typeParams then
      if template then r == Name(base)
      else if base in seen || Trim(sc.typeParams[base]) == "" then r == Name("java.lang.Object")
      else r == Resolve(sc, sc.typeParams[base], seen + {base}, false)
    else exists k :: BaseIs(sc, base, k) && r == Name(if k.Found? then k.fqn else base)
  }

  lemma {:induction false} BaseBecomes(sc: Scope, base: string, seen: set<string>, template: bool)
    requires base != ""
    ensures NameBecomes(sc, base, seen, template, ResolveBase(sc, base, seen, template))
  {
    hide Trim, KnownBase, BaseIs, Resolve;
    KnownBaseIs(sc, base);
    if base in sc.typeParams && base !in seen { OneLess(sc.typeParams.Keys, seen, base); }
  }

  // ------------------------------------------------------------------
  // Whole types become what they are written as

  /** The resolved type has the shape of the written one, with every name replaced. */
  ghost predicate Becomes(sc: Scope, t: TypeSpec, seen: set<string>, template: bool, r: Resolved)
    decreases t, 1
  {
    match t.wildcard
    case Any => r == AnyType
    case Extends => r.Upper? && PlainBecomes(sc, t, seen, template, r.bound)
    case Super => r.Lower? && PlainBecomes(sc, t, seen, template, r.bound)
    case NoWildcard => PlainBecomes(sc, t, seen, template, r)
  }

  ghost predicate PlainBecomes(sc: Scope, t: TypeSpec, seen: set<string>, template: bool, r: Resolved)
    decreases t, 0
  {
    && r.Type? && NameBecomes(sc, t.base, seen, template, r.base) && r.arrays == t.arrayDepth && |r.args| == |t.args|
    && forall i | 0 <= i < |t.args| :: Becomes(sc, t.args[i], seen, template, r.args[i])
  }

  predicate Braces(c: char) {
    c == '(' || c == ')' || c == '{' || c == '}'
  }

  ghost predicate Braceless(s: string) {
    forall i | 0 <= i < |s| :: !Braces(s[i])
  }

  /** No name in the type has braces or parentheses. */
  ghost predicate BracelessType(t: TypeSpec) {
    Braceless(t.base) && forall i | 0 <= i < |t.args| :: BracelessType(t.args[i])
  }

  function NonEmpty(ss: seq<string>): seq<string> {
    if ss == [] then [] else (if ss[0] != "" then [ss[0]] else []) + NonEmpty(ss[1..])
  }

  /** Without braces the text is cut at the same commas as by the parser of types. */
  lemma {:induction false} SplitIs(cur: string, rest: string, angle: nat)
    requires Braceless(rest)
    ensures Split(cur, rest, angle, 0, 0) == NonEmpty(Pieces(cur, rest, angle))
    decreases |rest|
  {
    hide Trim;
    if rest != "" {
      var c, more := rest[0], rest[1..];
      assert !Braces(c);
      assert rest[..1] == [c];
      if c == ',' && angle == 0 {
        SplitIs("", more, 0);
      } else {
        SplitIs(cur + [c], more, NextDepth(c, angle));
      }
    }
  }

  lemma {:induction false} AllNonEmpty(ss: seq<string>)
    requires forall i | 0 <= i < |ss| :: ss[i] != ""
    ensures NonEmpty(ss) == ss
    decreases |ss|
  {
    if ss != [] { AllNonEmpty(ss[1..]); }
  }

  lemma {:induction false} JoinTight(parts: seq<string>)
    requires Parts(parts) && parts != []
    ensures Tight(Join(parts))
    decreases |parts|
  {
    hide IsSpace, Neutral;
    assert Tight(parts[0]);
    if |parts| > 1 {
      JoinTight(parts[1..]);
    }
  }

  lemma {:induction false} JoinBraceless(parts: seq<string>)
    requires forall i | 0 <= i < |parts| :: Braceless(parts[i])
    ensures Braceless(Join(parts))
    decreases |parts|
  {
    if |parts| > 1 {
      JoinBraceless(parts[1..]);
      assert Braceless(parts[0]);
    }
  }

  lemma {:induction false} BracketsBraceless(n: nat)
    ensures Braceless(Brackets(n))
  {
    if n > 0 { BracketsBraceless(n - 1); }
  }

  lemma {:induction false} BracelessOn(s: string, t: string)
    requires Braceless(s) && Braceless(t)
    ensures Braceless(s + t)
  {
    hide Braces;
  }

  lemma {:induction false} FormatBraceless(t: TypeSpec)
    requires BracelessType(t)
    ensures Braceless(Format(t))
    decreases t
  {
    if !t.wildcard.Any? {
      forall i | 0 <= i < |t.args| ensures Braceless(FormatAll(t.args)[i]) { FormatBraceless(t.args[i]); }
      FormatText(t);
      SignsBraceless();
      hide Join, Brackets, FormatAll, Format, Braceless;
      BracketsBraceless(t.arrayDepth);
      JoinBraceless(FormatAll(t.args));
      BracelessOn("<", Join(FormatAll(t.args)));
      BracelessOn("<" + Join(FormatAll(t.args)), ">");
      BracelessOn(t.base, "<" + Join(FormatAll(t.args)) + ">");
      assert t.args != [] ==> Generic(t) == t.base + ("<" + Join(FormatAll(t.args)) + ">");
      hide Generic;
      BracelessOn(Generic(t), Brackets(t.arrayDepth));
      BracelessOn(if t.wildcard.Extends? then EXTENDS else if t.wildcard.Super? then SUPER else "", Generic(t) + Brackets(t.arrayDepth));
    }
  }

  lemma {:induction false} SignsBraceless()
    ensures Braceless("<") && Braceless(">") && Braceless("") && Braceless(EXTENDS) && Braceless(SUPER)
  {
  }

  /** A printed type's arguments are found. */
  lemma {:induction false} PrintedArguments(t: TypeSpec)
    requires WellFormed(t) && BracelessType(t)
    ensures Arguments(Generic(t)) == FormatAll(t.args)
  {
    TrimTight(t.base);
    hide IsSpace, Trim, Split, Pieces, Enclosed, Neutral;
    if t.args == [] {
      IndexOfIs(t.base, '<', "");
      assert Generic(t) == t.base;
    } else {
      var parts := FormatAll(t.args);
      forall i | 0 <= i < |parts| ensures Neutral(parts[i]) && Tight(parts[i]) && Braceless(parts[i]) {
        FormatNeutral(t.args[i]);
        FormatBraceless(t.args[i]);
      }
      var inner := Join(parts);
      assert Generic(t) == t.base + ['<'] + (inner + ">");
      ArgumentsInside(t.base, parts, inner);
    }
  }

  lemma {:induction false} ArgumentsInside(base: string, parts: seq<string>, inner: string)
    requires '<' !in base && Parts(parts) && parts != [] && inner == Join(parts)
    requires forall i | 0 <= i < |parts| :: Braceless(parts[i])
    ensures Arguments(base + ['<'] + (inner + ">")) == parts
  {
    hide IsSpace, Trim, Split, Pieces, Enclosed, Neutral, Join, IndexOf, NonEmpty;
    IndexOfIs(base, '<', inner + ">");
    var g := base + ['<'] + (inner + ">");
    assert g[|base| + 1..] == inner + ">";
    EnclosedJoin("", parts, ">");
    assert "" + inner == inner;
    ClosesHere(inner);
    JoinTight(parts);
    TrimTight(inner);
    JoinBraceless(parts);
    SplitIs("", inner, 0);
    PiecesJoin("", parts);
    assert forall i | 0 <= i < |parts| :: Tight(parts[i]);
    AllNonEmpty(parts);
  }

  lemma {:induction false} ClosesHere(inner: string)
    ensures Enclosed(inner, ">", 1) == Some(inner)
  {
  }

  /** How a printed type without wildcard is taken apart. */
  lemma {:induction false} PlainParts(t: TypeSpec)
    requires WellFormed(t) && BracelessType(t)
    ensures var s := Format(Plain(t));
            && Trim(s) == s != "" && s[0] != '?' && StripArrays(s) == (Generic(t), t.arrayDepth)
            && Trim(Generic(t)) == Generic(t) && BaseOf(Generic(t)) == t.base && Arguments(Generic(t)) == FormatAll(t.args)
  {
    GenericParts(t);
    GenericTight(t);
    FormatText(Plain(t));
    FormatNeutral(Plain(t));
    PlainStart(Plain(t));
    PrintedArguments(t);
    assert Generic(Plain(t)) == Generic(t);
    hide IsSpace, Tight, Trim, StripArrays, BaseOf, Arguments, Generic, HasSuffix, Format, Brackets, Braceless, Neutral;
    StripBrackets(Generic(t), t.arrayDepth);
    TrimTight(Generic(t));
    TrimTight(Format(Plain(t)));
    assert "" + (Generic(t) + Brackets(t.arrayDepth)) == Generic(t) + Brackets(t.arrayDepth);
  }

  lemma {:induction false} BaseNamed(t: TypeSpec)
    requires WellFormed(t)
    ensures t.base != ""
  {
  }

  lemma {:induction false} PlainResolves(sc: Scope, t: TypeSpec, seen: set<string>, template: bool)
    requires WellFormed(t) && BracelessType(t)
    ensures PlainBecomes(sc, t, seen, template, Resolve(sc, Format(Plain(t)), seen, template))
    decreases t, 0
  {
    hide *;
    PartsFit(t);
    forall i | 0 <= i < |t.args| ensures Becomes(sc, t.args[i], seen, template, Resolve(sc, Format(t.args[i]), seen, template)) {
      PrintedResolves(sc, t.args[i], seen, template);
    }
    PlainParts(t);
    BaseNamed(t);
    BaseBecomes(sc, t.base, seen, template);
    ResolvePlain(sc, Format(Plain(t)), Generic(t), t.arrayDepth, seen, template);
    TypeBecomes(sc, t, seen, template, Resolve(sc, Format(Plain(t)), seen, template));
  }

  lemma {:induction false} PartsFit(t: TypeSpec)
    requires WellFormed(t) && BracelessType(t)
    ensures forall i | 0 <= i < |t.args| :: WellFormed(t.args[i]) && BracelessType(t.args[i])
  {
  }

  lemma {:induction false} TypeBecomes(sc: Scope, t: TypeSpec, seen: set<string>, template: bool, r: Resolved)
    requires r.Type? && NameBecomes(sc, t.base, seen, template, r.base) && r.arrays == t.arrayDepth && |r.args| == |t.args|
    requires forall i | 0 <= i < |t.args| :: r.args[i] == Resolve(sc, FormatAll(t.args)[i], seen, template)
    requires forall i | 0 <= i < |t.args| :: Becomes(sc, t.args[i], seen, template, Resolve(sc, Format(t.args[i]), seen, template))
    ensures PlainBecomes(sc, t, seen, template, r)
  {
    hide Becomes, NameBecomes, Resolve, Format;
  }

  lemma {:induction false} ResolvePlain(sc: Scope, s: string, g: string, depth: nat, seen: set<string>, template: bool)
    requires Trim(s) == s != "" && s[0] != '?' && StripArrays(s) == (g, depth) && Trim(g) == g
    ensures var args := Arguments(g);
            Resolve(sc, s, seen, template) ==
            Type(ResolveBase(sc, BaseOf(g), seen, template),
                 seq(|args|, i requires 0 <= i < |args| => Resolve(sc, args[i], seen, template)), depth)
  {
    hide Trim, StripArrays, BaseOf, Arguments, ResolveBase;
    assert EXTENDS[0] == SUPER[0] == '?';
  }

  /** However a type is written that has no braces in its names, what it is resolved to has its
      wildcards, its arguments and its array brackets, and in place of each name what it stands for. */
  lemma {:induction false} PrintedResolves(sc: Scope, t: TypeSpec, seen: set<string>, template: bool)
    requires WellFormed(t) && BracelessType(t)
    ensures Becomes(sc, t, seen, template, Resolve(sc, Format(t), seen, template))
    decreases t, 1
  {
    hide IsSpace, Trim, PlainBecomes, Resolve;
    if t.wildcard.Any? {
      ResolveAny(sc, seen, template);
    } else {
      var plain := Plain(t);
      FormatNeutral(plain);
      FormatText(t);
      FormatText(plain);
      PlainResolves(sc, t, seen, template);
      hide Format, WellFormed;
      assert Generic(plain) == Generic(t);
      ResolveExtends(sc, Format(plain), seen, template);
      ResolveSuper(sc, Format(plain), seen, template);
      assert "" + Format(plain) == Format(plain);
    }
  }

  lemma {:induction false} ResolveAny(sc: Scope, seen: set<string>, template: bool)
    ensures Resolve(sc, "?", seen, template) == AnyType
  {
    TrimTight("?");
    hide Trim, StripArrays, Arguments;
  }

  lemma {:induction false} ResolveExtends(sc: Scope, text: string, seen: set<string>, template: bool)
    requires Tight(text)
    ensures Resolve(sc, EXTENDS + text, seen, template) == Upper(Resolve(sc, text, seen, template))
  {
    NotSpace();
    hide IsSpace;
    TrimTight(text);
    TrimTight(EXTENDS + text);
    hide Trim, StripArrays, Arguments, ResolveBase;
    assert (EXTENDS + text)[|EXTENDS|..] == text;
  }

  lemma {:induction false} ResolveSuper(sc: Scope, text: string, seen: set<string>, template: bool)
    requires Tight(text)
    ensures Resolve(sc, SUPER + text, seen, template) == Lower(Resolve(sc, text, seen, template))
  {
    NotSpace();
    hide IsSpace;
    TrimTight(text);
    TrimTight(SUPER + text);
    hide Trim, StripArrays, Arguments, ResolveBase;
    assert (SUPER + text)[|SUPER|..] == text;
    assert !(EXTENDS <= SUPER + text) by { assert (SUPER + text)[2] == 's' && EXTENDS[2] == 'e'; }
  }
}

/** Type parameters replaced by type arguments, through levels of superclasses. */
module TypeSubstitution {
  import opened TypeLanguage

  type Bindings = map<string, string>

  function Substitute(t: TypeSpec, b: Bindings): TypeSpec {
    if t.base != "" && t.args == [] && t.base in b then
      var actual := Parse(b[t.base]);
      TypeSpec(actual.base, actual.args, actual.arrayDepth + t.arrayDepth,
               if t.wildcard.NoWildcard? then actual.wildcard else t.wildcard)
    else
      t.(args := SubstituteAll(t.args, b))
  }

  function SubstituteAll(ts: seq<TypeSpec>, b: Bindings): (r: seq<TypeSpec>)
    ensures |r| == |ts| && forall i | 0 <= i < |r| :: r[i] == Substitute(ts[i], b)
  {
    if ts == [] then [] else [Substitute(ts[0], b)] + SubstituteAll(ts[1..], b)
  }

  function SubstituteText(expr: string, b: Bindings): string {
    if b == map[] || Trim(expr) == "" then expr else Format(Substitute(Parse(expr), b))
  }

  // ------------------------------------------------------------------
  // On text and on types

  /** Text that can be bound to a parameter: a type, and not just "?". */
  ghost predicate Bindable(text: string) {
    WellFormed(Parse(text)) && !Parse(text).wildcard.Any?
  }

  ghost predicate AllBindable(b: Bindings) {
    OBJECT !in b && forall x | x in b :: Bindable(b[x])
  }

  lemma {:induction false} SubstituteWellFormed(t: TypeSpec, b: Bindings)
    requires WellFormed(t) && AllBindable(b)
    ensures WellFormed(Substitute(t, b)) && (Substitute(t, b).wildcard.Any? <==> t.wildcard.Any?)
    decreases t
  {
    hide Parse, Name;
    if t.args == [] && t.base in b {
      assert Bindable(b[t.base]);
    } else {
      forall i | 0 <= i < |t.args| ensures WellFormed(SubstituteAll(t.args, b)[i]) {
        SubstituteWellFormed(t.args[i], b);
      }
    }
  }

  lemma {:induction false} SubstituteNothing(t: TypeSpec)
    ensures Substitute(t, map[]) == t
    decreases t
  {
    forall i | 0 <= i < |t.args| ensures SubstituteAll(t.args, map[])[i] == t.args[i] {
      SubstituteNothing(t.args[i]);
    }
    assert SubstituteAll(t.args, map[]) == t.args;
  }

  lemma {:induction false} BlankParses(expr: string)
    requires Trim(expr) == ""
    ensures Parse(expr) == ZERO
  {
  }

  lemma {:induction false} TypeIsText(expr: string)
    requires WellFormed(Parse(expr))
    ensures Trim(expr) != ""
  {
    if Trim(expr) == "" { BlankParses(expr); }
  }

  /** Substituting in the text is substituting in the type it spells. */
  lemma {:induction false} SubstituteTextParses(expr: string, b: Bindings)
    requires Trim(expr) == "" || WellFormed(Parse(expr))
    requires AllBindable(b)
    ensures Parse(SubstituteText(expr, b)) == Substitute(Parse(expr), b)
    ensures Trim(expr) != "" ==> WellFormed(Parse(SubstituteText(expr, b)))
  {
    if Trim(expr) == "" {
      BlankParses(expr);
      assert SubstituteAll([], b) == [];
    } else {
      hide Parse, Substitute, WellFormed;
      SubstituteWellFormed(Parse(expr), b);
      if b == map[] {
        SubstituteNothing(Parse(expr));
      } else {
        ParseFormat(Substitute(Parse(expr), b));
      }
    }
  }

  // ------------------------------------------------------------------
  // What substitution does to the text

  function Prefix(w: Wildcard): string {
    match w
    case Extends => "? extends "
    case Super => "? super "
    case _ => ""
  }

  /** The text of the type, with the bound text in the place of each parameter; inside a wildcard
      without the wildcard that the bound text has itself. */
  function Filled(t: TypeSpec, b: Bindings): string {
    if t.wildcard.Any? then "?"
    else
      Prefix(t.wildcard) +
      ((if t.args != [] then t.base + "<" + Join(AllFilled(t.args, b)) + ">"
        else if t.base !in b then t.base
        else if t.wildcard.NoWildcard? then b[t.base]
        else Format(Plain(Parse(b[t.base])))) + Brackets(t.arrayDepth))
  }

  function AllFilled(ts: seq<TypeSpec>, b: Bindings): (r: seq<string>)
    ensures |r| == |ts| && forall i | 0 <= i < |r| :: r[i] == Filled(ts[i], b)
  {
    if ts == [] then [] else [Filled(ts[0], b)] + AllFilled(ts[1..], b)
  }

  lemma {:induction false} BracketsOn(n: nat, m: nat)
    ensures Brackets(n) + Brackets(m) == Brackets(n + m)
    decreases m
  {
    if m == 0 {
      assert Brackets(n) + "" == Brackets(n);
    } else {
      BracketsOn(n, m - 1);
      assert Brackets(n) + (Brackets(m - 1) + "[]") == Brackets(n) + Brackets(m - 1) + "[]";
    }
  }

  lemma {:induction false} FormatParts(t: TypeSpec)
    requires !t.wildcard.Any?
    ensures Format(t) == Prefix(t.wildcard) + (Generic(t) + Brackets(t.arrayDepth))
  {
  }

  /** A bound type with brackets and a wildcard from outside. */
  lemma {:induction false} BoundWritten(u: TypeSpec, depth: nat, w: Wildcard)
    requires !u.wildcard.Any? && !w.Any?
    ensures Format(TypeSpec(u.base, u.args, u.arrayDepth + depth, if w.NoWildcard? then u.wildcard else w)) ==
            Prefix(w) + ((if w.NoWildcard? then Format(u) else Format(Plain(u))) + Brackets(depth))
  {
    hide *;
    var r := TypeSpec(u.base, u.args, u.arrayDepth + depth, if w.NoWildcard? then u.wildcard else w);
    SameGeneric(u, r);
    FormatParts(r);
    FormatParts(u);
    FormatParts(Plain(u));
    BracketsOn(u.arrayDepth, depth);
    Regrouped(Prefix(u.wildcard), Generic(u), Brackets(u.arrayDepth), Brackets(depth));
    Regrouped(Prefix(NoWildcard), Generic(u), Brackets(u.arrayDepth), Brackets(depth));
    NoPrefix(Format(u) + Brackets(depth));
    NoPrefix(Format(Plain(u)) + Brackets(depth));
  }

  lemma {:induction false} SameGeneric(u: TypeSpec, r: TypeSpec)
    requires r.base == u.base && r.args == u.args
    ensures Generic(r) == Generic(u) == Generic(Plain(u)) && Plain(u).arrayDepth == u.arrayDepth && Plain(u).wildcard.NoWildcard?
  {
  }

  lemma {:induction false} NoPrefix(s: string)
    ensures Prefix(NoWildcard) + s == s
  {
  }

  lemma {:induction false} Regrouped(p: string, g: string, x: string, y: string)
    ensures p + (g + (x + y)) == (p + (g + x)) + y && g + (x + y) == (g + x) + y
  {
  }

  /** Substituting writes the bound text in the place of each parameter and changes nothing else. */
  lemma {:induction false} SubstituteWrites(t: TypeSpec, b: Bindings)
    requires WellFormed(t) && AllBindable(b) && forall x | x in b :: Format(Parse(b[x])) == b[x]
    ensures Format(Substitute(t, b)) == Filled(t, b)
    decreases t
  {
    hide *;
    PartsWell(t);
    if t.wildcard.Any? {
      AnyWritten(b);
    } else if t.args == [] && t.base in b {
      BoundIn(b, t.base);
      BoundWritten(Parse(b[t.base]), t.arrayDepth, t.wildcard);
      ParameterFilled(t, b);
    } else {
      forall i | 0 <= i < |t.args| ensures Format(Substitute(t.args[i], b)) == Filled(t.args[i], b) {
        SubstituteWrites(t.args[i], b);
      }
      OtherFilled(t, b);
    }
  }

  lemma {:induction false} PartsWell(t: TypeSpec)
    requires WellFormed(t)
    ensures t.base != "" && (t.wildcard.Any? ==> t == TypeSpec(OBJECT, [], 0, Any))
    ensures forall i | 0 <= i < |t.args| :: WellFormed(t.args[i])
  {
  }

  lemma {:induction false} BoundIn(b: Bindings, x: string)
    requires AllBindable(b)
    ensures OBJECT !in b && (x in b ==> !Parse(b[x]).wildcard.Any?)
  {
    hide Parse;
    assert x in b ==> Bindable(b[x]);
  }

  lemma {:induction false} ParameterFilled(t: TypeSpec, b: Bindings)
    requires t.args == [] && t.base in b && t.base != "" && !t.wildcard.Any? && Format(Parse(b[t.base])) == b[t.base]
    ensures var u := Parse(b[t.base]);
            Substitute(t, b) == TypeSpec(u.base, u.args, u.arrayDepth + t.arrayDepth, if t.wildcard.NoWildcard? then u.wildcard else t.wildcard)
            && Filled(t, b) ==
               Prefix(t.wildcard) + ((if t.wildcard.NoWildcard? then Format(u) else Format(Plain(u))) + Brackets(t.arrayDepth))
  {
    hide Parse, Format, Brackets;
  }

  lemma {:induction false} OtherFilled(t: TypeSpec, b: Bindings)
    requires !t.wildcard.Any? && !(t.args == [] && t.base in b)
    requires forall i | 0 <= i < |t.args| :: Format(Substitute(t.args[i], b)) == Filled(t.args[i], b)
    ensures Format(Substitute(t, b)) == Filled(t, b)
  {
    FormatParts(Substitute(t, b));
    hide Parse, Format;
    assert FormatAll(SubstituteAll(t.args, b)) == AllFilled(t.args, b);
  }

  lemma {:induction false} AnyWritten(b: Bindings)
    requires AllBindable(b)
    ensures var any := TypeSpec(OBJECT, [], 0, Any); Format(Substitute(any, b)) == Filled(any, b)
  {
  }

  // ------------------------------------------------------------------
  // One substitution after another

  /** The first bindings, with the second substituted in them. */
  function Then(b: Bindings, c: Bindings): Bindings {
    map x | x in b :: SubstituteText(b[x], c)
  }

  /** The text spells its name itself, as the parameter with this wildcard sees it. */
  predicate SpellsItself(name: string, w: Wildcard, text: string) {
    var t := Parse(text);
    t.base == name && t.args == [] && t.arrayDepth == 0 && (w.NoWildcard? ==> t.wildcard.NoWildcard?)
  }

  /** No name that the first bindings leave alone is replaced by the second. */
  predicate NoCapture(t: TypeSpec, b: Bindings, c: Bindings) {
    if t.base != "" && t.args == [] then
      t.base in b || t.base !in c || SpellsItself(t.base, t.wildcard, c[t.base])
    else forall i | 0 <= i < |t.args| :: NoCapture(t.args[i], b, c)
  }

  /** Two substitutions are one by the composed bindings, exactly when nothing is captured. */
  lemma {:induction false} SubstituteTwice(t: TypeSpec, b: Bindings, c: Bindings)
    requires AllBindable(b) && AllBindable(c)
    ensures Substitute(Substitute(t, b), c) == Substitute(t, Then(b, c)) <==> NoCapture(t, b, c)
    decreases t
  {
    hide Parse, SubstituteText;
    if t.base != "" && t.args == [] {
      if t.base in b {
        assert Bindable(b[t.base]);
        SubstituteTextParsesBound(b[t.base], c);
        SubstituteMoved(Parse(b[t.base]), c, t.arrayDepth, t.wildcard);
      } else {
        assert SubstituteAll([], b) == [] && SubstituteAll([], Then(b, c)) == [];
      }
    } else {
      forall i | 0 <= i < |t.args|
        ensures Substitute(Substitute(t.args[i], b), c) == Substitute(t.args[i], Then(b, c)) <==> NoCapture(t.args[i], b, c)
      {
        SubstituteTwice(t.args[i], b, c);
      }
      var twice, once := SubstituteAll(SubstituteAll(t.args, b), c), SubstituteAll(t.args, Then(b, c));
      assert twice == once <==> forall i | 0 <= i < |t.args| :: twice[i] == once[i];
    }
  }

  lemma {:induction false} SubstituteTextParsesBound(text: string, c: Bindings)
    requires Bindable(text) && AllBindable(c)
    ensures Parse(SubstituteText(text, c)) == Substitute(Parse(text), c)
  {
    hide Parse, SubstituteText;
    SubstituteTextParses(text, c);
  }

  /** Array brackets and a wildcard put on from outside stay outside. */
  lemma {:induction false} SubstituteMoved(t: TypeSpec, c: Bindings, depth: nat, w: Wildcard)
    ensures Substitute(TypeSpec(t.base, t.args, t.arrayDepth + depth, if w.NoWildcard? then t.wildcard else w), c) ==
            TypeSpec(Substitute(t, c).base, Substitute(t, c).args, Substitute(t, c).arrayDepth + depth,
                     if w.NoWildcard? then Substitute(t, c).wildcard else w)
  {
    hide Parse;
  }

  // ------------------------------------------------------------------
  // What a superclass reference binds

  /** The first n parameters, each bound to its argument if that says anything. */
  function Bound(params: seq<string>, args: seq<string>, n: nat): (b: Bindings)
    requires n <= |params| && n <= |args|
  {
    if n == 0 then map[]
    else if Trim(args[n - 1]) == "" then Bound(params, args, n - 1)
    else Bound(params, args, n - 1)[params[n - 1] := Trim(args[n - 1])]
  }

  lemma {:induction false} BoundFrom(params: seq<string>, args: seq<string>, n: nat, x: string) returns (i: nat)
    requires n <= |params| && n <= |args| && x in Bound(params, args, n)
    ensures i < n && params[i] == x && Bound(params, args, n)[x] == Trim(args[i])
    decreases n
  {
    hide Trim;
    if params[n - 1] == x && Trim(args[n - 1]) != "" {
      i := n - 1;
    } else {
      i := BoundFrom(params, args, n - 1, x);
    }
  }

  function Min(m: nat, n: nat): nat { if m < n then m else n }

  function TypeArgBindings(typeRef: string, params: seq<string>): Bindings {
    var args := ArgsOf(Trim(typeRef));
    Bound(params, args, Min(|params|, |args|))
  }

  /** Nothing but the parameters is bound. */
  lemma {:induction false} BindsOwn(typeRef: string, params: seq<string>, x: string)
    requires x in TypeArgBindings(typeRef, params)
    ensures x in params
  {
    hide Trim, ArgsOf;
    var args := ArgsOf(Trim(typeRef));
    var i := BoundFrom(params, args, Min(|params|, |args|), x);
  }

  method BindTypeArgs(typeRef: string, params: seq<string>) returns (b: Bindings)
    ensures b == TypeArgBindings(typeRef, params)
  {
    if |params| == 0 {
      return map[];
    }
    TrimTwice(typeRef);
    hide Trim, ArgsOf, BaseOf, Bound;
    var _, args := SplitGenericArgs(Trim(typeRef));
    b := BindEach(params, args);
  }

  method BindEach(params: seq<string>, args: seq<string>) returns (b: Bindings)
    ensures b == Bound(params, args, Min(|params|, |args|))
  {
    b := map[];
    var i := 0;
    while i < |params| && i < |args|
      invariant 0 <= i <= |params| && i <= |args| && b == Bound(params, args, i)
    {
      hide Bound;
      BoundNext(params, args, i);
      var actual := Trim(args[i]);
      if actual != "" {
        b := b[params[i] := actual];
      }
      i := i + 1;
    }
  }

  lemma {:induction false} BoundNext(params: seq<string>, args: seq<string>, n: nat)
    requires n < |params| && n < |args|
    ensures Bound(params, args, n + 1) ==
            if Trim(args[n]) == "" then Bound(params, args, n) else Bound(params, args, n)[params[n] := Trim(args[n])]
  {
    hide Trim;
  }

  ghost predicate DistinctNames(params: seq<string>) {
    forall i, j | 0 <= i < j < |params| :: params[i] != params[j]
  }

  lemma {:induction false} BoundTo(params: seq<string>, args: seq<string>, n: nat, i: nat)
    requires n <= |params| && n <= |args| && i < n && DistinctNames(params) && Trim(args[i]) != ""
    ensures params[i] in Bound(params, args, n) && Bound(params, args, n)[params[i]] == Trim(args[i])
    decreases n
  {
    hide Trim;
    if i < n - 1 {
      BoundTo(params, args, n - 1, i);
    }
  }

  /** A class type as it stands in an extends clause, with types for arguments. */
  ghost predicate ClassRef(text: string) {
    var t := Parse(text);
    WellFormed(t) && t.arrayDepth == 0 && t.wildcard.NoWildcard?
    && forall i | 0 <= i < |t.args| :: !t.args[i].wildcard.Any?
  }

  /** The argument texts of a class type parse to its arguments. */
  lemma {:induction false} ArgTexts(text: string)
    requires ClassRef(text)
    ensures |ArgsOf(Trim(text))| == |Parse(text).args|
    ensures forall i | 0 <= i < |Parse(text).args| ::
              Parse(ArgsOf(Trim(text))[i]) == Parse(text).args[i] && Parse(Trim(ArgsOf(Trim(text))[i])) == Parse(text).args[i]
  {
    var s := Trim(text);
    TrimTwice(text);
    hide Trim, ArgsOf, BaseOf;
    assert Parse(text) == ParsePlain(s);
    StripNothing(s);
    forall i | 0 <= i < |ArgsOf(s)| ensures Parse(Trim(ArgsOf(s)[i])) == Parse(ArgsOf(s)[i]) {
      ParseTrimmed(ArgsOf(s)[i]);
    }
  }

  lemma {:induction false} ParseTrimmed(s: string)
    ensures Parse(Trim(s)) == Parse(s)
  {
    TrimTwice(s);
    hide Trim, ParsePlain;
  }

  lemma {:induction false} StripNothing(s: string)
    requires StripArrays(s).1 == 0
    ensures StripArrays(s).0 == s
  {
    hide Trim;
  }

  // ------------------------------------------------------------------
  // Which class a supertype names

  /** The text names a class, with or without arguments. */
  ghost predicate NamesClass(text: string) {
    var t := Parse(text);
    Name(t.base) && t.arrayDepth == 0 && t.wildcard.NoWildcard?
  }

  lemma {:induction false} BaseBeforeBracket(base: string, rest: string)
    requires Name(base)
    ensures BaseOf(base) == base && BaseOf(base + ['<'] + rest) == base
  {
    TrimTight(base);
    hide Trim, IsSpace;
    IndexOfIs(base, '<', rest);
    assert (base + ['<'] + rest)[..|base|] == base && base[..|base|] == base;
  }

  /** A printed class type has its name, whatever its arguments are. */
  lemma {:induction false} PrintedName(t: TypeSpec)
    requires Name(t.base) && t.arrayDepth == 0 && t.wildcard.NoWildcard?
    ensures Parse(Format(t)).base == t.base && Tight(Format(t))
  {
    var text := Generic(t);
    assert text == if t.args == [] then t.base else t.base + ['<'] + (Join(FormatAll(t.args)) + ">");
    BaseBeforeBracket(t.base, Join(FormatAll(t.args)) + ">");
    NotSpace();
    hide IsSpace, BaseOf, Join, FormatAll;
    assert Format(t) == text + "" && text + "" == text;
    assert Tight(text) && !HasSuffix(text, "[]") && text[0] == t.base[0];
    TrimTight(text);
    StripNone(text);
    hide Trim, StripArrays, ArgsOf, HasSuffix;
    ParseTightPlain(text);
  }

  /** A bare name is the type of that name. */
  lemma {:induction false} BareName(name: string)
    requires Name(name)
    ensures Parse(name) == TypeSpec(name, [], 0, NoWildcard)
  {
    var t := TypeSpec(name, [], 0, NoWildcard);
    assert Format(t) == name + "" && name + "" == name;
    hide Parse, Format;
    ParseFormat(t);
  }

  /** Substituting below a class's name leaves the name. */
  lemma {:induction false} SubstitutedName(text: string, b: Bindings)
    requires NamesClass(text) && (Parse(text).args != [] || Parse(text).base !in b)
    ensures RawName(SubstituteText(text, b)) == Parse(text).base
  {
    var t := Parse(text);
    if Trim(text) == "" { BlankParses(text); }
    hide Parse, Format, Trim, IsSpace;
    if b == map[] {
      ParseTrimmed(text);
    } else {
      var u := Substitute(t, b);
      PrintedName(u);
      ParseTrimmed(Format(u));
    }
  }

  /** The bindings mean the same types, however they are spelled. */
  ghost predicate SameMeaning(b: Bindings, c: Bindings) {
    b.Keys == c.Keys && forall x | x in b :: Parse(b[x]) == Parse(c[x])
  }

  lemma {:induction false} SubstituteSame(t: TypeSpec, b: Bindings, c: Bindings)
    requires SameMeaning(b, c)
    ensures Substitute(t, b) == Substitute(t, c)
    decreases t
  {
    hide Parse;
    forall i | 0 <= i < |t.args| ensures SubstituteAll(t.args, b)[i] == SubstituteAll(t.args, c)[i] {
      SubstituteSame(t.args[i], b, c);
    }
    assert SubstituteAll(t.args, b) == SubstituteAll(t.args, c);
  }

  /** Names for type parameters: all different, and not that of the class of all objects. */
  ghost predicate Params(params: seq<string>) {
    DistinctNames(params) && OBJECT !in params
  }

  /** The parameters that a reference gives arguments to. */
  ghost predicate Receives(ref: string, params: seq<string>, i: nat) {
    i < |params| && i < |Parse(ref).args|
  }

  lemma {:induction false} RefBindsAt(ref: string, params: seq<string>, i: nat)
    requires ClassRef(ref) && Params(params) && Receives(ref, params, i)
    ensures params[i] in TypeArgBindings(ref, params)
    ensures Parse(TypeArgBindings(ref, params)[params[i]]) == Parse(ref).args[i]
  {
    ArgTexts(ref);
    var args := ArgsOf(Trim(ref));
    assert WellFormed(Parse(ref).args[i]);
    hide Parse, Trim, ArgsOf;
    TypeIsText(args[i]);
    BoundTo(params, args, Min(|params|, |args|), i);
  }

  lemma {:induction false} RefBindsOnly(ref: string, params: seq<string>, x: string) returns (i: nat)
    requires ClassRef(ref) && x in TypeArgBindings(ref, params)
    ensures Receives(ref, params, i) && params[i] == x
  {
    ArgTexts(ref);
    hide Parse, Trim, ArgsOf;
    var args := ArgsOf(Trim(ref));
    i := BoundFrom(params, args, Min(|params|, |args|), x);
  }

  /** A reference binds as many parameters as it has arguments, each to its argument's type. */
  lemma {:induction false} RefBinds(ref: string, params: seq<string>)
    requires ClassRef(ref) && Params(params)
    ensures AllBindable(TypeArgBindings(ref, params))
    ensures forall i: nat | Receives(ref, params, i) ::
              params[i] in TypeArgBindings(ref, params)
              && Parse(TypeArgBindings(ref, params)[params[i]]) == Parse(ref).args[i]
  {
    hide TypeArgBindings, Parse;
    var b := TypeArgBindings(ref, params);
    forall i: nat | Receives(ref, params, i) ensures params[i] in b && Parse(b[params[i]]) == Parse(ref).args[i] {
      RefBindsAt(ref, params, i);
    }
    forall x | x in b ensures x != OBJECT && Bindable(b[x]) {
      var i := RefBindsOnly(ref, params, x);
      assert WellFormed(Parse(ref).args[i]);
    }
  }

  lemma {:induction false} RefSubstituted(ref: string, b: Bindings)
    requires ClassRef(ref) && AllBindable(b) && (Parse(ref).args != [] || Parse(ref).base !in b)
    ensures ClassRef(SubstituteText(ref, b))
    ensures Parse(SubstituteText(ref, b)).args == SubstituteAll(Parse(ref).args, b)
  {
    hide Parse, SubstituteText;
    SubstituteTextParses(ref, b);
    var t := Parse(ref);
    SubstituteWellFormed(t, b);
    forall i | 0 <= i < |t.args| ensures !SubstituteAll(t.args, b)[i].wildcard.Any? {
      assert WellFormed(t.args[i]);
      SubstituteWellFormed(t.args[i], b);
    }
  }

  /** The parameters are bound to the reference's arguments, with the substitution done in them. */
  lemma {:induction false} RefBindsSubstituted(ref: string, params: seq<string>, b: Bindings)
    requires ClassRef(ref) && Params(params) && AllBindable(b)
    requires Parse(ref).args != [] || Parse(ref).base !in b
    ensures AllBindable(TypeArgBindings(ref, params)) && AllBindable(TypeArgBindings(SubstituteText(ref, b), params))
    ensures SameMeaning(TypeArgBindings(SubstituteText(ref, b), params), Then(TypeArgBindings(ref, params), b))
  {
    var ref' := SubstituteText(ref, b);
    RefSubstituted(ref, b);
    RefBinds(ref, params);
    RefBinds(ref', params);
    hide Parse, SubstituteText, TypeArgBindings, ClassRef, Substitute;
    var raw, code := TypeArgBindings(ref, params), TypeArgBindings(ref', params);
    forall x | x in raw ensures x in code && Parse(code[x]) == Parse(SubstituteText(raw[x], b)) {
      var i := RefBindsOnly(ref, params, x);
      assert Receives(ref', params, i) && Bindable(raw[x]);
      SubstituteTextParsesBound(raw[x], b);
    }
    forall x | x in code ensures x in raw {
      var i := RefBindsOnly(ref', params, x);
      assert Receives(ref, params, i);
    }
    assert code.Keys == raw.Keys;
  }

  /** One level up: a type written in the superclass, seen from below, is that type with the
      superclass's parameters replaced and then the subclass's. What the program computes is
      this exactly when no name the reference leaves unbound is a parameter below. */
  lemma {:induction false} InheritedOneLevel(type_: string, ref: string, params: seq<string>, b: Bindings)
    requires WellFormed(Parse(type_)) && ClassRef(ref) && Params(params) && AllBindable(b)
    requires Parse(ref).args != [] || Parse(ref).base !in b
    ensures Parse(SubstituteText(type_, TypeArgBindings(SubstituteText(ref, b), params)))
            == Parse(SubstituteText(SubstituteText(type_, TypeArgBindings(ref, params)), b))
            <==> NoCapture(Parse(type_), TypeArgBindings(ref, params), b)
  {
    hide Parse, SubstituteText, TypeArgBindings, NoCapture, SameMeaning;
    var raw, code := TypeArgBindings(ref, params), TypeArgBindings(SubstituteText(ref, b), params);
    RefBindsSubstituted(ref, params, b);
    SubstituteTextParses(type_, code);
    SubstituteTextParses(type_, raw);
    TypeIsText(type_);
    SubstituteTextParses(SubstituteText(type_, raw), b);
    SubstituteSame(Parse(type_), code, Then(raw, b));
    SubstituteTwice(Parse(type_), raw, b);
  }

  // ------------------------------------------------------------------
  // Many levels

  /** One step up a hierarchy: the reference to a superclass, and the superclass's parameters. */
  datatype Level = Level(ref: string, params: seq<string>)

  /** The bindings the program has when it reaches the last level. */
  function BindingsAt(levels: seq<Level>): Bindings {
    if levels == [] then map[]
    else
      var last := levels[|levels| - 1];
      TypeArgBindings(SubstituteText(last.ref, BindingsAt(levels[..|levels| - 1])), last.params)
  }

  /** A text of the last level, taken down one level at a time. */
  function LevelByLevel(text: string, levels: seq<Level>): string
    decreases |levels|
  {
    if levels == [] then text
    else
      var last := levels[|levels| - 1];
      LevelByLevel(SubstituteText(text, TypeArgBindings(last.ref, last.params)), levels[..|levels| - 1])
  }

  /** A bare name in the type is one of the class's own parameters, or nobody's. */
  predicate Closed(t: TypeSpec, own: seq<string>, all: set<string>) {
    if t.base != "" && t.args == [] then t.base in own || t.base !in all
    else forall i | 0 <= i < |t.args| :: Closed(t.args[i], own, all)
  }

  /** The parameters of the class at the last level. */
  function Own(first: seq<string>, levels: seq<Level>): seq<string> {
    if levels == [] then first else levels[|levels| - 1].params
  }

  /** The reference names a class, gives an argument to every parameter, and uses only the
      parameters of the class it stands in. */
  ghost predicate LevelOk(level: Level, own: seq<string>, all: set<string>) {
    && ClassRef(level.ref) && Params(level.params)
    && (forall x | x in level.params :: x in all)
    && |level.params| <= |Parse(level.ref).args|
    && Parse(level.ref).base !in all
    && Closed(Parse(level.ref), own, all)
  }

  ghost predicate Hierarchy(first: seq<string>, levels: seq<Level>, all: set<string>) {
    levels == [] ||
    (LevelOk(levels[|levels| - 1], Own(first, levels[..|levels| - 1]), all) && Hierarchy(first, levels[..|levels| - 1], all))
  }

  lemma {:induction false} SubstituteClosed(t: TypeSpec, b: Bindings, params: seq<string>, own: seq<string>, all: set<string>)
    requires Closed(t, params, all) && (forall x | x in params :: x in b)
    requires forall x | x in b :: Closed(Parse(b[x]), own, all)
    ensures Closed(Substitute(t, b), own, all)
    decreases t
  {
    hide Parse;
    if t.base != "" && t.args == [] {
      if t.base !in b { assert SubstituteAll([], b) == []; }
    } else {
      forall i | 0 <= i < |t.args| ensures Closed(SubstituteAll(t.args, b)[i], own, all) {
        SubstituteClosed(t.args[i], b, params, own, all);
      }
    }
  }

  lemma {:induction false} ClosedUncaptured(t: TypeSpec, params: seq<string>, all: set<string>, b: Bindings, c: Bindings)
    requires Closed(t, params, all) && (forall x | x in params :: x in b) && c.Keys <= all
    ensures NoCapture(t, b, c)
    decreases t
  {
    hide SpellsItself;
    if t.base == "" || t.args != [] {
      forall i | 0 <= i < |t.args| ensures NoCapture(t.args[i], b, c) {
        ClosedUncaptured(t.args[i], params, all, b, c);
      }
    }
  }

  lemma {:induction false} ReceivesAll(ref: string, params: seq<string>, x: string) returns (i: nat)
    requires |params| <= |Parse(ref).args| && x in params
    ensures Receives(ref, params, i) && params[i] == x
  {
    i :| 0 <= i < |params| && params[i] == x;
  }

  lemma {:induction false} BindingsAtGood(first: seq<string>, levels: seq<Level>, all: set<string>)
    requires Hierarchy(first, levels, all)
    ensures AllBindable(BindingsAt(levels)) && BindingsAt(levels).Keys <= all
    decreases |levels|
  {
    if levels != [] {
      var init, last := levels[..|levels| - 1], levels[|levels| - 1];
      hide Parse, SubstituteText, TypeArgBindings, ClassRef, Params, Closed;
      BindingsAtGood(first, init, all);
      RefBindsSubstituted(last.ref, last.params, BindingsAt(init));
      RefSubstituted(last.ref, BindingsAt(init));
      forall x | x in BindingsAt(levels) ensures x in all {
        var i := RefBindsOnly(SubstituteText(last.ref, BindingsAt(init)), last.params, x);
      }
    }
  }

  /** What the reference binds is closed in the class the reference stands in. */
  lemma {:induction false} RefClosed(ref: string, params: seq<string>, own: seq<string>, all: set<string>, x: string)
    requires ClassRef(ref) && Params(params) && Closed(Parse(ref), own, all) && x in TypeArgBindings(ref, params)
    ensures Closed(Parse(TypeArgBindings(ref, params)[x]), own, all)
  {
    hide Parse, TypeArgBindings;
    var i := RefBindsOnly(ref, params, x);
    RefBindsAt(ref, params, i);
  }

  lemma {:induction false} OneLevelClosed(text: string, level: Level, own: seq<string>, all: set<string>, b: Bindings)
    requires LevelOk(level, own, all) && AllBindable(b) && b.Keys <= all
    requires WellFormed(Parse(text)) && Closed(Parse(text), level.params, all)
    ensures Parse(SubstituteText(text, TypeArgBindings(SubstituteText(level.ref, b), level.params)))
            == Parse(SubstituteText(SubstituteText(text, TypeArgBindings(level.ref, level.params)), b))
    ensures WellFormed(Parse(SubstituteText(text, TypeArgBindings(level.ref, level.params))))
    ensures Closed(Parse(SubstituteText(text, TypeArgBindings(level.ref, level.params))), own, all)
  {
    hide Parse, SubstituteText, TypeArgBindings, ClassRef, Closed, NoCapture, Params, WellFormed, Substitute;
    var raw := TypeArgBindings(level.ref, level.params);
    RefBinds(level.ref, level.params);
    forall x | x in level.params ensures x in raw {
      var i := ReceivesAll(level.ref, level.params, x);
    }
    forall x | x in raw ensures Closed(Parse(raw[x]), own, all) {
      RefClosed(level.ref, level.params, own, all, x);
    }
    SubstituteTextParses(text, raw);
    TypeIsText(text);
    SubstituteClosed(Parse(text), raw, level.params, own, all);
    ClosedUncaptured(Parse(text), level.params, all, raw, b);
    InheritedOneLevel(text, level.ref, level.params, b);
  }

  /** A type inherited over any number of levels: substituting once, with the bindings the
      program composes on the way up, is substituting level by level on the way down. */
  lemma {:induction false} InheritedThrough(text: string, first: seq<string>, levels: seq<Level>, all: set<string>)
    requires Hierarchy(first, levels, all) && WellFormed(Parse(text)) && Closed(Parse(text), Own(first, levels), all)
    ensures Parse(SubstituteText(text, BindingsAt(levels))) == Parse(LevelByLevel(text, levels))
    decreases |levels|
  {
    if levels != [] {
      var init, last := levels[..|levels| - 1], levels[|levels| - 1];
      hide Parse, SubstituteText, TypeArgBindings, LevelOk, Closed, WellFormed, AllBindable;
      BindingsAtGood(first, init, all);
      OneLevelClosed(text, last, Own(first, init), all, BindingsAt(init));
      InheritedThrough(SubstituteText(text, TypeArgBindings(last.ref, last.params)), first, init, all);
    }
  }
}

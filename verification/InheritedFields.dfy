/** The fields of a class with those it inherits: superclass fields first, each typed as the
    most derived class that declares it types it. */
module InheritedFields {
  import opened Options
  import opened TypeLanguage
  import opened TypeSubstitution

  datatype Field = Field(name: string, javaType: string, typeTemplate: string)

  datatype JavaClass = JavaClass(fqn: string, typeParams: seq<string>, superclass: string, fields: seq<Field>)

  type Store = map<string, JavaClass>

  /** A class with what its type parameters stand for. */
  datatype Node = Node(class_: JavaClass, bindings: Bindings)

  function SubstituteField(f: Field, b: Bindings): Field {
    if b == map[] then f
    else f.(javaType := SubstituteText(if f.typeTemplate == "" then f.javaType else f.typeTemplate, b))
  }

  function SubstituteFields(fs: seq<Field>, b: Bindings): seq<Field> {
    seq(|fs|, i requires 0 <= i < |fs| => SubstituteField(fs[i], b))
  }

  /** The superclass of the node, if the store has it. */
  function SuperOf(store: Store, n: Node): Option<Node> {
    if n.class_.superclass == "" then None
    else
      var ref := SubstituteText(n.class_.superclass, n.bindings);
      var name := RawName(ref);
      if name in store then Some(Node(store[name], TypeArgBindings(ref, store[name].typeParams))) else None
  }

  /** A class of the store, some of whose own type parameters stand for something. */
  ghost predicate Proper(store: Store, n: Node) {
    n.class_ in store.Values && forall x | x in n.bindings :: x in n.class_.typeParams
  }

  /** Every superclass step leads to a class of lower rank: no class is its own superclass. */
  ghost predicate Acyclic(store: Store, rank: string -> nat) {
    forall n: Node | Proper(store, n) && SuperOf(store, n).Some? ::
      rank(SuperOf(store, n).value.class_.fqn) < rank(n.class_.fqn)
  }

  /** The program only ever binds a class's own parameters. */
  lemma {:induction false} SuperProper(store: Store, n: Node)
    requires SuperOf(store, n).Some?
    ensures Proper(store, SuperOf(store, n).value)
  {
    hide RawName, SubstituteText, TypeArgBindings;
    var s := SuperOf(store, n).value;
    forall x | x in s.bindings ensures x in s.class_.typeParams {
      BindsOwn(SubstituteText(n.class_.superclass, n.bindings), s.class_.typeParams, x);
    }
  }

  /** The class says by name which class is above it, and that is one of lower rank. */
  ghost predicate SuperNamed(store: Store, rank: string -> nat, c: JavaClass) {
    c.superclass != "" ==>
      && NamesClass(c.superclass)
      && (Parse(c.superclass).args != [] || Parse(c.superclass).base !in c.typeParams)
      && (Parse(c.superclass).base in store ==> rank(store[Parse(c.superclass).base].fqn) < rank(c.fqn))
  }

  /** It is enough that the names written in the extends clauses have no cycle, whatever the
      type arguments are. */
  lemma {:induction false} AcyclicByNames(store: Store, rank: string -> nat)
    requires forall c | c in store.Values :: SuperNamed(store, rank, c)
    ensures Acyclic(store, rank)
  {
    forall n: Node | Proper(store, n) && SuperOf(store, n).Some?
      ensures rank(SuperOf(store, n).value.class_.fqn) < rank(n.class_.fqn)
    {
      assert SuperNamed(store, rank, n.class_);
      hide Parse, SubstituteText, RawName, TypeArgBindings;
      SubstitutedName(n.class_.superclass, n.bindings);
    }
  }

  /** Classes without type parameters, one extending the other by its bare name, are such a store. */
  lemma {:induction false} PlainChainAcyclic(upper: JavaClass, lower: JavaClass)
    requires Name(upper.fqn) && upper.superclass == "" && lower.superclass == upper.fqn && lower.fqn != upper.fqn
    requires upper.typeParams == lower.typeParams == []
    ensures Acyclic(map[upper.fqn := upper, lower.fqn := lower], (name: string) => if name == upper.fqn then 0 else 1)
  {
    hide Parse;
    BareName(upper.fqn);
    AcyclicByNames(map[upper.fqn := upper, lower.fqn := lower], (name: string) => if name == upper.fqn then 0 else 1);
  }

  ghost predicate Named(store: Store) {
    forall k | k in store :: store[k].fqn != ""
  }

  /** The fields as all classes declare them, the topmost class first. */
  ghost function Declarations(store: Store, rank: string -> nat, n: Node): seq<Field>
    requires Acyclic(store, rank) && Proper(store, n)
    decreases rank(n.class_.fqn)
  {
    hide SuperOf;
    (match SuperOf(store, n)
     case Some(s) => SuperProper(store, n); Declarations(store, rank, s)
     case None => []) + SubstituteFields(n.class_.fields, n.bindings)
  }

  // ------------------------------------------------------------------
  // What the result is

  /** Where the name is declared first; -1 if nowhere. */
  function FirstIndex(fs: seq<Field>, name: string): (i: int)
    ensures -1 <= i < |fs| && (i >= 0 ==> fs[i].name == name)
    ensures i < 0 ==> forall j | 0 <= j < |fs| :: fs[j].name != name
  {
    if fs == [] then -1
    else
      var n := |fs| - 1;
      var i := FirstIndex(fs[..n], name);
      if i >= 0 then i else if fs[n].name == name then n else -1
  }

  function LastIndex(fs: seq<Field>, name: string): (i: int)
    ensures -1 <= i < |fs| && (i >= 0 ==> fs[i].name == name)
  {
    if fs == [] then -1
    else if fs[|fs| - 1].name == name then |fs| - 1
    else LastIndex(fs[..|fs| - 1], name)
  }

  /** One entry for each declared name: its last declaration, in the order of first declarations. */
  ghost predicate Resolves(out: seq<Field>, decls: seq<Field>) {
    && (forall i | 0 <= i < |out| :: LastIndex(decls, out[i].name) >= 0 && decls[LastIndex(decls, out[i].name)] == out[i])
    && (forall p | 0 <= p < |decls| :: FirstIndex(out, decls[p].name) >= 0)
    && (forall i, j | 0 <= i < j < |out| :: FirstIndex(decls, out[i].name) < FirstIndex(decls, out[j].name))
  }

  lemma {:induction false} DistinctEntries(out: seq<Field>, decls: seq<Field>, i: nat, j: nat)
    requires Resolves(out, decls) && i < j < |out|
    ensures out[i].name != out[j].name
  {
    assert FirstIndex(decls, out[i].name) < FirstIndex(decls, out[j].name);
  }

  lemma {:induction false} IndexesGrow(fs: seq<Field>, f: Field, name: string)
    ensures FirstIndex(fs + [f], name) ==
            if FirstIndex(fs, name) >= 0 then FirstIndex(fs, name) else if f.name == name then |fs| else -1
    ensures LastIndex(fs + [f], name) == if f.name == name then |fs| else LastIndex(fs, name)
  {
    assert (fs + [f])[..|fs|] == fs;
  }

  lemma {:induction false} DeclaredBothWays(fs: seq<Field>, name: string)
    ensures FirstIndex(fs, name) >= 0 <==> LastIndex(fs, name) >= 0
    decreases |fs|
  {
    if fs != [] { DeclaredBothWays(fs[..|fs| - 1], name); }
  }

  function Put(out: seq<Field>, f: Field): seq<Field> {
    var i := FirstIndex(out, f.name);
    if i >= 0 then out[i := f] else out + [f]
  }

  lemma {:induction false} PutAt(out: seq<Field>, decls: seq<Field>, f: Field, i: nat)
    requires Resolves(out, decls) && i < |Put(out, f)|
    ensures var e := Put(out, f)[i];
            var l := LastIndex(decls + [f], e.name);
            l >= 0 && (decls + [f])[l] == e
    ensures i < |out| ==> Put(out, f)[i].name == out[i].name
  {
    var out' := Put(out, f);
    var n := FirstIndex(out, f.name);
    IndexesGrow(decls, f, out'[i].name);
    if i < |out| && i != n && n >= 0 {
      if i < n { DistinctEntries(out, decls, i, n); } else { DistinctEntries(out, decls, n, i); }
    }
  }

  lemma {:induction false} PutOrder(out: seq<Field>, decls: seq<Field>, f: Field, i: nat, j: nat)
    requires Resolves(out, decls) && i < j < |Put(out, f)|
    ensures FirstIndex(decls + [f], Put(out, f)[i].name) < FirstIndex(decls + [f], Put(out, f)[j].name)
  {
    var out' := Put(out, f);
    PutAt(out, decls, f, i);
    PutAt(out, decls, f, j);
    IndexesGrow(decls, f, out'[i].name);
    IndexesGrow(decls, f, out'[j].name);
    DeclaredBothWays(decls, out'[i].name);
  }

  /** One more declaration. */
  lemma {:induction false} PutResolves(out: seq<Field>, decls: seq<Field>, f: Field)
    requires Resolves(out, decls)
    ensures Resolves(Put(out, f), decls + [f])
  {
    var out', decls' := Put(out, f), decls + [f];
    forall p | 0 <= p < |decls'| ensures FirstIndex(out', decls'[p].name) >= 0 {
      PutHas(out, f, decls'[p].name);
    }
    hide Put;
    forall i | 0 <= i < |out'|
      ensures LastIndex(decls', out'[i].name) >= 0 && decls'[LastIndex(decls', out'[i].name)] == out'[i]
    {
      PutAt(out, decls, f, i);
    }
    forall i, j | 0 <= i < j < |out'| ensures FirstIndex(decls', out'[i].name) < FirstIndex(decls', out'[j].name) {
      PutOrder(out, decls, f, i, j);
    }
  }

  lemma {:induction false} PutHas(out: seq<Field>, f: Field, name: string)
    requires FirstIndex(out, name) >= 0 || f.name == name
    ensures FirstIndex(Put(out, f), name) >= 0
  {
    var i := if FirstIndex(out, name) >= 0 then FirstIndex(out, name) else FirstIndex(out, f.name);
    assert i >= 0 ==> Put(out, f)[i].name == name;
    assert i < 0 ==> Put(out, f)[|out|].name == name;
  }

  // ------------------------------------------------------------------
  // The superclass chain as it is written

  /** The node's class names up's class as its superclass. */
  ghost predicate Extends(store: Store, n: Node, up: Node) {
    n.class_.superclass != "" &&
    var ref := SubstituteText(n.class_.superclass, n.bindings);
    && RawName(ref) in store
    && up == Node(store[RawName(ref)], TypeArgBindings(ref, store[RawName(ref)].typeParams))
  }

  ghost predicate Topmost(store: Store, n: Node) {
    n.class_.superclass == "" || RawName(SubstituteText(n.class_.superclass, n.bindings)) !in store
  }

  /** Each node's superclass is the next, and the store has none for the last. */
  ghost predicate Chain(store: Store, nodes: seq<Node>) {
    && nodes != [] && (forall i | 0 <= i < |nodes| - 1 :: Extends(store, nodes[i], nodes[i + 1]))
    && Topmost(store, nodes[|nodes| - 1])
  }

  /** f is w with the type parameters replaced; it is w itself where none stands for anything. */
  ghost predicate Inherits(w: Field, b: Bindings, f: Field) {
    if b == map[] then f == w
    else
      && f.name == w.name && f.typeTemplate == w.typeTemplate
      && f.javaType == SubstituteText(if w.typeTemplate != "" then w.typeTemplate else w.javaType, b)
  }

  /** The fields written in the chain, the last node's first. */
  ghost predicate WrittenIn(nodes: seq<Node>, fs: seq<Field>)
    decreases |nodes|
  {
    if nodes == [] then fs == []
    else
      var own := nodes[0].class_.fields;
      && |own| <= |fs| && WrittenIn(nodes[1..], fs[..|fs| - |own|])
      && forall i | 0 <= i < |own| :: Inherits(own[i], nodes[0].bindings, fs[|fs| - |own| + i])
  }

  /** One entry for each name written in the chain, as the class furthest down has it, in the
      order of the first declarations. */
  ghost predicate Shows(store: Store, root: Node, out: seq<Field>) {
    exists nodes, decls :: Chain(store, nodes) && nodes[0] == root && WrittenIn(nodes, decls) && Resolves(out, decls)
  }

  lemma {:induction false} ExtendsIs(store: Store, n: Node, up: Node)
    ensures Extends(store, n, up) <==> SuperOf(store, n) == Some(up)
    ensures Topmost(store, n) <==> SuperOf(store, n).None?
  {
    hide SubstituteText, RawName, TypeArgBindings;
  }

  lemma {:induction false} OwnWritten(n: Node, above: seq<Node>, fs: seq<Field>)
    requires WrittenIn(above, fs)
    ensures WrittenIn([n] + above, fs + SubstituteFields(n.class_.fields, n.bindings))
  {
    hide SubstituteText;
    var all := fs + SubstituteFields(n.class_.fields, n.bindings);
    assert ([n] + above)[1..] == above && all[..|fs|] == fs;
  }

  lemma {:induction false} DeclarationsChain(store: Store, rank: string -> nat, n: Node) returns (nodes: seq<Node>)
    requires Acyclic(store, rank) && Proper(store, n)
    ensures Chain(store, nodes) && nodes[0] == n && WrittenIn(nodes, Declarations(store, rank, n))
    decreases rank(n.class_.fqn)
  {
    hide SuperOf, SubstituteFields, WrittenIn, Extends, Topmost;
    forall up ensures Extends(store, n, up) <==> SuperOf(store, n) == Some(up) { ExtendsIs(store, n, up); }
    ExtendsIs(store, n, n);
    var above: seq<Node> := [];
    var fs: seq<Field> := [];
    match SuperOf(store, n) {
      case Some(s) =>
        SuperProper(store, n);
        above := DeclarationsChain(store, rank, s);
        fs := Declarations(store, rank, s);
      case None =>
        NothingWritten();
    }
    nodes := [n] + above;
    OwnWritten(n, above, fs);
  }

  lemma {:induction false} NothingWritten()
    ensures WrittenIn([], [])
  {
  }

  // ------------------------------------------------------------------
  // The program

  class FieldWalk {
    const store: Store
    var out: seq<Field>
    var index: map<string, nat>
    var seen: set<Node>

    constructor (store: Store)
      ensures this.store == store && out == [] && index == map[] && seen == {}
    {
      this.store := store;
      out, index, seen := [], map[], {};
    }

    ghost predicate Indexed()
      reads this
    {
      forall name :: (name in index <==> FirstIndex(out, name) >= 0) && (name in index ==> index[name] == FirstIndex(out, name))
    }

    /** Adds what the class declares and inherits to what was declared before. */
    method Walk(n: Node, ghost rank: string -> nat, ghost decls: seq<Field>)
      requires Acyclic(store, rank) && Named(store) && Proper(store, n)
      requires forall s | s in seen :: rank(s.class_.fqn) > rank(n.class_.fqn)
      requires Indexed() && Resolves(out, decls)
      modifies this
      ensures Indexed() && Resolves(out, decls + Declarations(store, rank, n))
      ensures forall s | s in seen :: s in old(seen) || rank(s.class_.fqn) <= rank(n.class_.fqn)
      decreases rank(n.class_.fqn)
    {
      hide Resolves, SubstituteFields, SuperOf;
      if n.class_.fqn == "" || n in seen {
        assert false; // no class is above itself
      }
      seen := seen + {n};
      ghost var above := decls;
      var super := SuperOf(store, n);
      if super.Some? {
        assert rank(super.value.class_.fqn) < rank(n.class_.fqn);
        SuperProper(store, n);
        Walk(super.value, rank, decls);
        above := decls + Declarations(store, rank, super.value);
      }
      AddFields(n, above);
      assert above + SubstituteFields(n.class_.fields, n.bindings) == decls + Declarations(store, rank, n);
    }

    method AddFields(n: Node, ghost decls: seq<Field>)
      requires Indexed() && Resolves(out, decls)
      modifies this`out, this`index
      ensures Indexed() && Resolves(out, decls + SubstituteFields(n.class_.fields, n.bindings))
    {
      hide Resolves, SubstituteField;
      ghost var added: seq<Field> := SubstituteFields(n.class_.fields, n.bindings);
      assert decls + added[..0] == decls;
      var i := 0;
      while i < |n.class_.fields|
        invariant 0 <= i <= |n.class_.fields| && Indexed() && Resolves(out, decls + added[..i])
      {
        var field := SubstituteField(n.class_.fields[i], n.bindings);
        PutResolves(out, decls + added[..i], field);
        assert decls + added[..i] + [field] == decls + added[..i + 1];
        Append(field);
        i := i + 1;
      }
      assert added[..i] == added;
    }

    method Append(field: Field)
      requires Indexed()
      modifies this`out, this`index
      ensures Indexed() && out == Put(old(out), field)
    {
      ghost var before := out;
      if field.name in index {
        out := out[index[field.name] := field];
        forall name ensures FirstIndex(out, name) == FirstIndex(before, name) {
          Replaced(before, field, name);
        }
      } else {
        index := index[field.name := |out|];
        out := out + [field];
        forall name ensures FirstIndex(out, name) == if name == field.name then |before| else FirstIndex(before, name) {
          IndexesGrow(before, field, name);
        }
      }
    }
  }

  lemma {:induction false} Replaced(fs: seq<Field>, f: Field, name: string)
    requires FirstIndex(fs, f.name) >= 0
    ensures FirstIndex(fs[FirstIndex(fs, f.name) := f], name) == FirstIndex(fs, name)
  {
    SameNames(fs, fs[FirstIndex(fs, f.name) := f], name);
  }

  lemma {:induction false} SameNames(fs: seq<Field>, gs: seq<Field>, name: string)
    requires |fs| == |gs| && forall i | 0 <= i < |fs| :: fs[i].name == gs[i].name
    ensures FirstIndex(fs, name) == FirstIndex(gs, name)
    decreases |fs|
  {
    if fs != [] { SameNames(fs[..|fs| - 1], gs[..|gs| - 1], name); }
  }

  method ResolvedFields(store: Store, fqn: string, ghost rank: string -> nat) returns (out: seq<Field>)
    requires Acyclic(store, rank) && Named(store)
    ensures fqn in store ==> Resolves(out, Declarations(store, rank, Node(store[fqn], map[])))
    ensures fqn in store ==> Shows(store, Node(store[fqn], map[]), out)
    ensures fqn !in store ==> out == []
  {
    hide Chain, WrittenIn, Acyclic;
    var w := new FieldWalk(store);
    if fqn in store {
      ghost var nodes := DeclarationsChain(store, rank, Node(store[fqn], map[]));
      w.Walk(Node(store[fqn], map[]), rank, []);
      assert [] + Declarations(store, rank, Node(store[fqn], map[])) == Declarations(store, rank, Node(store[fqn], map[]));
    }
    out := w.out;
  }

  // ------------------------------------------------------------------
  // The types of inherited fields

  /** The node k superclasses up. */
  function Ancestor(store: Store, n: Node, k: nat): Option<Node> {
    if k == 0 then Some(n)
    else match Ancestor(store, n, k - 1)
      case Some(m) => SuperOf(store, m)
      case None => None
  }

  /** The references on the way there. */
  function Levels(store: Store, n: Node, k: nat): seq<Level>
    requires Ancestor(store, n, k).Some?
  {
    hide SuperOf;
    if k == 0 then []
    else
      Levels(store, n, k - 1)
      + [Level(Ancestor(store, n, k - 1).value.class_.superclass, Ancestor(store, n, k).value.class_.typeParams)]
  }

  lemma {:induction false} AncestorBindings(store: Store, n: Node, k: nat)
    requires n.bindings == map[] && Ancestor(store, n, k).Some?
    ensures Ancestor(store, n, k).value.bindings == BindingsAt(Levels(store, n, k))
    ensures Own(n.class_.typeParams, Levels(store, n, k)) == Ancestor(store, n, k).value.class_.typeParams
    decreases k
  {
    hide SubstituteText, TypeArgBindings, RawName;
    if k > 0 {
      AncestorBindings(store, n, k - 1);
      var levels := Levels(store, n, k);
      assert levels[..|levels| - 1] == Levels(store, n, k - 1);
    }
  }

  /** A field inherited from k superclasses up has the type written there, with the type
      parameters replaced level by level on the way down. */
  lemma {:induction false} InheritedFieldType(store: Store, n: Node, k: nat, f: Field, all: set<string>)
    requires n.bindings == map[] && Ancestor(store, n, k).Some?
    requires Hierarchy(n.class_.typeParams, Levels(store, n, k), all)
    requires f in Ancestor(store, n, k).value.class_.fields
    requires var t := if f.typeTemplate == "" then f.javaType else f.typeTemplate;
             WellFormed(Parse(t)) && Closed(Parse(t), Ancestor(store, n, k).value.class_.typeParams, all)
    requires f.typeTemplate != "" && Ancestor(store, n, k).value.bindings == map[] ==> f.typeTemplate == f.javaType
    ensures Parse(SubstituteField(f, Ancestor(store, n, k).value.bindings).javaType)
            == Parse(LevelByLevel(if f.typeTemplate == "" then f.javaType else f.typeTemplate, Levels(store, n, k)))
  {
    hide Parse, LevelByLevel, BindingsAt, Hierarchy, WellFormed, Closed, Levels, Ancestor;
    AncestorBindings(store, n, k);
    InheritedThrough(if f.typeTemplate == "" then f.javaType else f.typeTemplate, n.class_.typeParams, Levels(store, n, k), all);
  }

  // ------------------------------------------------------------------
  // Where the walk does not end

  /** A class that extends itself with its parameter wrapped once more. */
  function Wrapping(a: string, l: string, t: string): JavaClass {
    JavaClass(a, [t], Format(TypeSpec(a, [Wrapped(l, t, 1)], 0, NoWildcard)), [])
  }

  function Wrapped(l: string, t: string, k: nat): TypeSpec {
    if k == 0 then TypeSpec(t, [], 0, NoWildcard) else TypeSpec(l, [Wrapped(l, t, k - 1)], 0, NoWildcard)
  }

  lemma {:induction false} WrappedWell(l: string, t: string, k: nat)
    requires Name(l) && Name(t)
    ensures WellFormed(Wrapped(l, t, k))
    decreases k
  {
    hide Name;
    if k > 0 { WrappedWell(l, t, k - 1); }
  }

  /** One more wrapping, in the text. */
  lemma {:induction false} WrapsOnce(a: string, l: string, t: string, k: nat)
    requires Name(a) && Name(l) && Name(t) && l != t
    ensures Substitute(TypeSpec(a, [Wrapped(l, t, 1)], 0, NoWildcard), map[t := Format(Wrapped(l, t, k))])
            == TypeSpec(a, [Wrapped(l, t, k + 1)], 0, NoWildcard)
  {
    var b := map[t := Format(Wrapped(l, t, k))];
    WrappedWell(l, t, k);
    ParseFormat(Wrapped(l, t, k));
    hide Parse, Format;
    var inner := Wrapped(l, t, 0);
    assert Substitute(inner, b) == Wrapped(l, t, k);
    assert [inner][1..] == [];
    assert SubstituteAll([inner], b) == [Wrapped(l, t, k)];
    assert Wrapped(l, t, 1) == TypeSpec(l, [inner], 0, NoWildcard);
    assert Substitute(Wrapped(l, t, 1), b) == Wrapped(l, t, k + 1);
    assert SubstituteAll([Wrapped(l, t, 1)], b) == [Wrapped(l, t, k + 1)];
  }

  /** The reference to the wrapped class binds its parameter to the wrapping. */
  lemma {:induction false} WrappedBinds(a: string, l: string, t: string, k: nat)
    requires Name(a) && Name(l) && Name(t)
    ensures var ref := Format(TypeSpec(a, [Wrapped(l, t, k)], 0, NoWildcard));
            RawName(ref) == a && TypeArgBindings(ref, [t]) == map[t := Format(Wrapped(l, t, k))]
  {
    var w := Wrapped(l, t, k);
    var u := TypeSpec(a, [w], 0, NoWildcard);
    WrappedWell(l, t, k);
    FormatNeutral(w);
    TrimTight(Format(w));
    PrintedName(u);
    GenericParts(u);
    assert Format(u) == Generic(u) + "" && Generic(u) + "" == Generic(u);
    var ref := Format(u);
    TrimTight(ref);
    hide Format, Generic, Trim, ArgsOf, BaseOf, Parse, Name, IsSpace;
    ParseTrimmed(ref);
    assert FormatAll([w]) == [Format(w)];
    BoundNext([t], [Format(w)], 0);
    assert Format(w) != "";
  }

  /** The k-th superclass is there for every k, and no two are the same node: the walk, which
      only stops at a node it has seen, never does. */
  lemma {:induction false} WrappingNeverEnds(a: string, l: string, t: string, k: nat)
    requires Name(a) && Name(l) && Name(t) && l != t
    ensures var c := Wrapping(a, l, t);
            Ancestor(map[a := c], Node(c, map[]), k) == Some(Node(c, WrappedBindings(l, t, k)))
    decreases k
  {
    hide SuperOf, Wrapping, Wrapped, Format, Name;
    if k > 0 {
      WrappingNeverEnds(a, l, t, k - 1);
      WrappingStep(a, l, t, k - 1);
    }
  }

  function WrappedBindings(l: string, t: string, k: nat): Bindings {
    if k == 0 then map[] else map[t := Format(Wrapped(l, t, k))]
  }

  lemma {:induction false} WrappingRef(a: string, l: string, t: string, k: nat)
    requires Name(a) && Name(l) && Name(t) && l != t
    ensures SubstituteText(Wrapping(a, l, t).superclass, WrappedBindings(l, t, k))
            == Format(TypeSpec(a, [Wrapped(l, t, k + 1)], 0, NoWildcard))
  {
    var top := TypeSpec(a, [Wrapped(l, t, 1)], 0, NoWildcard);
    WrappedWell(l, t, 1);
    ParseFormat(top);
    PrintedName(top);
    if Trim(Format(top)) == "" { BlankParses(Format(top)); }
    hide Format, Parse, Trim, Substitute, Wrapped, Name, IsSpace;
    if k > 0 {
      WrapsOnce(a, l, t, k);
    }
  }

  lemma {:induction false} WrappingStep(a: string, l: string, t: string, k: nat)
    requires Name(a) && Name(l) && Name(t) && l != t
    ensures var c := Wrapping(a, l, t);
            SuperOf(map[a := c], Node(c, WrappedBindings(l, t, k))) == Some(Node(c, WrappedBindings(l, t, k + 1)))
  {
    WrappingRef(a, l, t, k);
    WrappedBinds(a, l, t, k + 1);
    FormatNeutral(TypeSpec(a, [Wrapped(l, t, 1)], 0, NoWildcard)) by { WrappedWell(l, t, 1); }
    assert Wrapping(a, l, t).superclass != "";
    hide Format, SubstituteText, TypeArgBindings, RawName, Name, Wrapped, Tight;
  }

  lemma {:induction false} WrappingsDiffer(l: string, t: string, j: nat, k: nat)
    requires Name(l) && Name(t) && l != t && j < k
    ensures WrappedBindings(l, t, j) != WrappedBindings(l, t, k)
  {
    assert t in WrappedBindings(l, t, k);
    if j > 0 {
      WrappedWell(l, t, j);
      WrappedWell(l, t, k);
      ParseFormat(Wrapped(l, t, j));
      ParseFormat(Wrapped(l, t, k));
      hide Parse, Format;
      WrappedDiffer(l, t, j, k);
      assert WrappedBindings(l, t, j)[t] != WrappedBindings(l, t, k)[t];
    }
  }

  lemma {:induction false} WrappedDiffer(l: string, t: string, j: nat, k: nat)
    requires l != t && j < k
    ensures Wrapped(l, t, j) != Wrapped(l, t, k)
    decreases j
  {
    if j > 0 {
      WrappedDiffer(l, t, j - 1, k - 1);
      assert Wrapped(l, t, j).args[0] != Wrapped(l, t, k).args[0];
    }
  }
}

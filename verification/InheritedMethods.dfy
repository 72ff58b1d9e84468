/** The methods of a type with those it inherits from interfaces and superclasses, each
    signature once, as the first type on the way that has it declares it. */
module InheritedMethods {
  import opened Options
  import opened TypeLanguage
  import opened TypeSubstitution

  datatype Method = Method(name: string, paramTypes: seq<string>, paramTemplates: seq<string>, returnType: string, returnTemplate: string)

  datatype JavaClass = JavaClass(fqn: string, typeParams: seq<string>, superclass: string, interfaces: seq<string>, methods: seq<Method>)

  type Store = map<string, JavaClass>

  /** A class with what its type parameters stand for. */
  datatype Node = Node(class_: JavaClass, bindings: Bindings)

  // ------------------------------------------------------------------
  // One type

  function SubstituteMethod(m: Method, b: Bindings): Method {
    if b == map[] then m
    else
      m.(returnType := SubstituteText(if m.returnTemplate != "" then m.returnTemplate else m.returnType, b),
         paramTypes := seq(|m.paramTypes|, i requires 0 <= i < |m.paramTypes| =>
           SubstituteText(if i < |m.paramTemplates| && m.paramTemplates[i] != "" then m.paramTemplates[i] else m.paramTypes[i], b)))
  }

  function Commas(parts: seq<string>): string {
    if parts == [] then "" else if |parts| == 1 then parts[0] else parts[0] + "," + Commas(parts[1..])
  }

  function Signature(m: Method): string {
    m.name + "(" + Commas(m.paramTypes) + ")"
  }

  /** The methods a node declares itself and that are looked for. */
  function Written(n: Node, ms: seq<Method>, wanted: string -> bool): seq<Method> {
    if ms == [] then []
    else
      var m := SubstituteMethod(ms[|ms| - 1], n.bindings);
      Written(n, ms[..|ms| - 1], wanted) + (if wanted(m.name) then [m] else [])
  }

  function NodeAt(store: Store, ref: string): Option<Node> {
    var name := RawName(ref);
    if name in store then Some(Node(store[name], TypeArgBindings(ref, store[name].typeParams))) else None
  }

  /** What the node names as its supertypes, interfaces first. */
  function SuperTexts(n: Node): seq<string> {
    n.class_.interfaces + if n.class_.superclass != "" then [n.class_.superclass] else []
  }

  function SuperAt(store: Store, n: Node, i: nat): Option<Node>
    requires i < |SuperTexts(n)|
  {
    NodeAt(store, SubstituteText(SuperTexts(n)[i], n.bindings))
  }

  // ------------------------------------------------------------------
  // All types above

  /** A class of the store, some of whose own type parameters stand for something. */
  ghost predicate Proper(store: Store, n: Node) {
    n.class_ in store.Values && forall x | x in n.bindings :: x in n.class_.typeParams
  }

  /** No type is above itself: every step up leads to a lower rank. */
  ghost predicate Acyclic(store: Store, rank: string -> nat) {
    && (forall k | k in store :: store[k].fqn != "")
    && forall n: Node, i: nat | Proper(store, n) && i < |SuperTexts(n)| && SuperAt(store, n, i).Some? ::
         rank(SuperAt(store, n, i).value.class_.fqn) < rank(n.class_.fqn)
  }

  /** The program only ever binds a type's own parameters. */
  lemma {:induction false} SuperProper(store: Store, n: Node, i: nat)
    requires i < |SuperTexts(n)| && SuperAt(store, n, i).Some?
    ensures Proper(store, SuperAt(store, n, i).value)
  {
    hide RawName, SubstituteText, TypeArgBindings;
    var s := SuperAt(store, n, i).value;
    forall x | x in s.bindings ensures x in s.class_.typeParams {
      BindsOwn(SubstituteText(SuperTexts(n)[i], n.bindings), s.class_.typeParams, x);
    }
  }

  /** The text says by name which type is above the class, and that is one of lower rank. */
  ghost predicate SuperNamed(store: Store, rank: string -> nat, c: JavaClass, text: string) {
    && NamesClass(text)
    && (Parse(text).args != [] || Parse(text).base !in c.typeParams)
    && (Parse(text).base in store ==> rank(store[Parse(text).base].fqn) < rank(c.fqn))
  }

  ghost predicate SupersNamed(store: Store, rank: string -> nat, c: JavaClass) {
    && (forall i | 0 <= i < |c.interfaces| :: SuperNamed(store, rank, c, c.interfaces[i]))
    && (c.superclass != "" ==> SuperNamed(store, rank, c, c.superclass))
  }

  /** It is enough that the names written after extends and implements have no cycle,
      whatever the type arguments are. */
  lemma {:induction false} AcyclicByNames(store: Store, rank: string -> nat)
    requires forall k | k in store :: store[k].fqn != ""
    requires forall c | c in store.Values :: SupersNamed(store, rank, c)
    ensures Acyclic(store, rank)
  {
    hide Parse, SubstituteText, RawName, TypeArgBindings;
    forall n: Node, i: nat | Proper(store, n) && i < |SuperTexts(n)| && SuperAt(store, n, i).Some?
      ensures rank(SuperAt(store, n, i).value.class_.fqn) < rank(n.class_.fqn)
    {
      assert SupersNamed(store, rank, n.class_);
      var text := SuperTexts(n)[i];
      assert SuperNamed(store, rank, n.class_, text);
      SubstitutedName(text, n.bindings);
    }
  }

  /** The diamond of four types without type parameters: the lowest names the two in the
      middle, and each of them names the topmost, all by their bare names. */
  function DiamondStore(top: JavaClass, left: JavaClass, right: JavaClass, low: JavaClass): Store {
    map[top.fqn := top, left.fqn := left, right.fqn := right, low.fqn := low]
  }

  ghost predicate Diamond(top: JavaClass, left: JavaClass, right: JavaClass, low: JavaClass) {
    && Name(top.fqn) && Name(left.fqn) && Name(right.fqn) && Name(low.fqn)
    && top.fqn != left.fqn && top.fqn != right.fqn && top.fqn != low.fqn
    && left.fqn != right.fqn && left.fqn != low.fqn && right.fqn != low.fqn
    && top.typeParams == left.typeParams == right.typeParams == low.typeParams == []
    && top.interfaces == [] && top.superclass == left.superclass == right.superclass == low.superclass == ""
    && left.interfaces == right.interfaces == [top.fqn] && low.interfaces == [left.fqn, right.fqn]
  }

  lemma {:induction false} DiamondAcyclic(top: JavaClass, left: JavaClass, right: JavaClass, low: JavaClass)
    requires Diamond(top, left, right, low)
    ensures Acyclic(DiamondStore(top, left, right, low),
                    (name: string) => if name == top.fqn then 0 else if name == low.fqn then 2 else 1)
  {
    hide Parse;
    BareName(top.fqn);
    BareName(left.fqn);
    BareName(right.fqn);
    var store := DiamondStore(top, left, right, low);
    var rank := (name: string) => if name == top.fqn then 0 else if name == low.fqn then 2 else 1;
    NamesBare(store, rank, left, top.fqn);
    NamesBare(store, rank, right, top.fqn);
    NamesBare(store, rank, low, left.fqn);
    NamesBare(store, rank, low, right.fqn);
    AcyclicByNames(store, rank);
  }

  lemma {:induction false} NamesBare(store: Store, rank: string -> nat, c: JavaClass, name: string)
    requires Name(name) && c.typeParams == [] && (name in store ==> rank(store[name].fqn) < rank(c.fqn))
    ensures SuperNamed(store, rank, c, name)
  {
    BareName(name);
    hide Parse;
  }

  /** Every declaration on every way up, the node's own first and with all repetitions. */
  ghost function Declarations(store: Store, rank: string -> nat, n: Node, wanted: string -> bool): seq<Method>
    requires Acyclic(store, rank) && Proper(store, n)
    decreases rank(n.class_.fqn), |SuperTexts(n)| + 1
  {
    Written(n, n.class_.methods, wanted) + Above(store, rank, n, |SuperTexts(n)|, wanted)
  }

  /** Those of the first k supertypes. */
  ghost function Above(store: Store, rank: string -> nat, n: Node, k: nat, wanted: string -> bool): seq<Method>
    requires Acyclic(store, rank) && Proper(store, n) && k <= |SuperTexts(n)|
    decreases rank(n.class_.fqn), k
  {
    hide SuperAt;
    if k == 0 then []
    else
      Above(store, rank, n, k - 1, wanted)
      + match SuperAt(store, n, k - 1)
        case Some(s) => SuperProper(store, n, k - 1); Declarations(store, rank, s, wanted)
        case None => []
  }

  // ------------------------------------------------------------------
  // Each signature once

  function Has(ms: seq<Method>, signature: string): bool {
    exists i :: 0 <= i < |ms| && Signature(ms[i]) == signature
  }

  /** Adds those whose signature is not there yet. */
  function AddNew(out: seq<Method>, ms: seq<Method>): seq<Method>
    decreases |ms|
  {
    if ms == [] then out
    else AddNew(if Has(out, Signature(ms[0])) then out else out + [ms[0]], ms[1..])
  }

  lemma {:induction false} AddNewOn(out: seq<Method>, ms: seq<Method>, more: seq<Method>)
    ensures AddNew(out, ms + more) == AddNew(AddNew(out, ms), more)
    decreases |ms|
  {
    hide Has;
    if ms == [] {
      assert ms + more == more;
    } else {
      assert (ms + more)[1..] == ms[1..] + more;
      AddNewOn(if Has(out, Signature(ms[0])) then out else out + [ms[0]], ms[1..], more);
    }
  }

  /** All their signatures are there. */
  ghost predicate Covered(out: seq<Method>, ms: seq<Method>) {
    forall i | 0 <= i < |ms| :: Has(out, Signature(ms[i]))
  }

  lemma {:induction false} NothingNew(out: seq<Method>, ms: seq<Method>)
    requires Covered(out, ms)
    ensures AddNew(out, ms) == out
    decreases |ms|
  {
    if ms != [] {
      assert Covered(out, ms[1..]) by { assert forall i | 0 <= i < |ms[1..]| :: ms[1..][i] == ms[i + 1]; }
      NothingNew(out, ms[1..]);
    }
  }

  /** The result keeps what was there, covers what is added, repeats no signature, and takes
      each from what is added. */
  lemma {:induction false} AddNewMeans(out: seq<Method>, ms: seq<Method>)
    ensures out <= AddNew(out, ms) && Covered(AddNew(out, ms), ms)
    ensures Distinct(out) ==> Distinct(AddNew(out, ms))
    ensures forall m | m in AddNew(out, ms) :: m in out || m in ms
    decreases |ms|
  {
    if ms != [] {
      var next := if Has(out, Signature(ms[0])) then out else out + [ms[0]];
      AddNewMeans(next, ms[1..]);
      hide AddNew;
      HasFirst(out, ms[0], next);
      HasMore(next, AddNew(next, ms[1..]), Signature(ms[0]));
      CoveredAll(AddNew(next, ms[1..]), ms);
    }
  }

  lemma {:induction false} CoveredAll(out: seq<Method>, ms: seq<Method>)
    requires ms != [] && Has(out, Signature(ms[0])) && Covered(out, ms[1..])
    ensures Covered(out, ms)
  {
    hide Has;
    forall i | 0 <= i < |ms| ensures Has(out, Signature(ms[i])) {
      if i > 0 { assert ms[i] == ms[1..][i - 1]; }
    }
  }

  lemma {:induction false} HasFirst(out: seq<Method>, m: Method, next: seq<Method>)
    requires next == if Has(out, Signature(m)) then out else out + [m]
    ensures Has(next, Signature(m)) && out <= next && (Distinct(out) ==> Distinct(next))
  {
    if !Has(out, Signature(m)) { assert next[|out|] == m; }
  }

  lemma {:induction false} HasMore(out: seq<Method>, more: seq<Method>, signature: string)
    requires out <= more && Has(out, signature)
    ensures Has(more, signature)
  {
    var i :| 0 <= i < |out| && Signature(out[i]) == signature;
    assert more[i] == out[i];
  }

  lemma {:induction false} CoveredMore(out: seq<Method>, more: seq<Method>, ms: seq<Method>)
    requires out <= more && Covered(out, ms)
    ensures Covered(more, ms)
  {
    hide Has;
    forall i | 0 <= i < |ms| ensures Has(more, Signature(ms[i])) {
      HasMore(out, more, Signature(ms[i]));
    }
  }

  ghost predicate Distinct(ms: seq<Method>) {
    forall i, j | 0 <= i < j < |ms| :: Signature(ms[i]) != Signature(ms[j])
  }

  // ------------------------------------------------------------------
  // Where a method of the result is written

  /** The node's interface number step, or its superclass where step is past the last one, is up. */
  ghost predicate Up(store: Store, n: Node, step: nat, up: Node) {
    && (step < |n.class_.interfaces| || (step == |n.class_.interfaces| && n.class_.superclass != ""))
    && var text := if step < |n.class_.interfaces| then n.class_.interfaces[step] else n.class_.superclass;
       var ref := SubstituteText(text, n.bindings);
       && RawName(ref) in store
       && up == Node(store[RawName(ref)], TypeArgBindings(ref, store[RawName(ref)].typeParams))
  }

  /** The steps lead over these nodes. */
  ghost predicate Path(store: Store, nodes: seq<Node>, way: seq<nat>) {
    |nodes| == |way| + 1 && forall i | 0 <= i < |way| :: Up(store, nodes[i], way[i], nodes[i + 1])
  }

  ghost predicate Leads(store: Store, root: Node, way: seq<nat>, n: Node) {
    exists nodes :: Path(store, nodes, way) && nodes[0] == root && nodes[|way|] == n
  }

  /** Method number index of the type that the way leads to. */
  datatype Place = Place(way: seq<nat>, index: nat)

  /** A type's own methods come first and in their order, then those of its first supertype with
      all that is above it, and so on. */
  predicate Before(p: Place, q: Place)
    decreases |p.way|
  {
    if p.way == [] then q.way != [] || p.index < q.index
    else
      q.way != [] &&
      (p.way[0] < q.way[0] ||
       (p.way[0] == q.way[0] && Before(Place(p.way[1..], p.index), Place(q.way[1..], q.index))))
  }

  /** The text that stands for the type of parameter number i. */
  function ParamText(m: Method, i: nat): string
    requires i < |m.paramTypes|
  {
    if i < |m.paramTemplates| && m.paramTemplates[i] != "" then m.paramTemplates[i] else m.paramTypes[i]
  }

  function ReturnText(m: Method): string {
    if m.returnTemplate == "" then m.returnType else m.returnTemplate
  }

  /** m is w with the type parameters replaced; it is w itself where none stands for anything. */
  ghost predicate Inherits(w: Method, b: Bindings, m: Method) {
    if b == map[] then m == w
    else
      && m.name == w.name && m.paramTemplates == w.paramTemplates && m.returnTemplate == w.returnTemplate
      && m.returnType == SubstituteText(ReturnText(w), b)
      && |m.paramTypes| == |w.paramTypes|
      && forall i | 0 <= i < |w.paramTypes| :: m.paramTypes[i] == SubstituteText(ParamText(w, i), b)
  }

  /** What is written at the place is looked for, and is m seen from the root. */
  ghost predicate Offers(store: Store, root: Node, wanted: string -> bool, p: Place, m: Method) {
    wanted(m.name) &&
    exists n :: Leads(store, root, p.way, n) && p.index < |n.class_.methods| && Inherits(n.class_.methods[p.index], n.bindings, m)
  }

  ghost predicate Ascending(ps: seq<Place>) {
    forall i, j | 0 <= i < j < |ps| :: Before(ps[i], ps[j])
  }

  /** Each signature that is offered anywhere above the root is in the result once, from the
      first place that offers it, and nothing else is. */
  ghost predicate Collected(store: Store, root: Node, wanted: string -> bool, out: seq<Method>) {
    && Distinct(out)
    && exists ps: seq<Place> ::
         && |ps| == |out| && Ascending(ps)
         && (forall i | 0 <= i < |ps| :: Offers(store, root, wanted, ps[i], out[i]))
         && (forall p, m | Offers(store, root, wanted, p, m) :: TakenBy(ps, out, p, m))
  }

  ghost predicate TakenBy(ps: seq<Place>, out: seq<Method>, p: Place, m: Method)
    requires |ps| == |out|
  {
    exists i :: 0 <= i < |ps| && Signature(out[i]) == Signature(m) && !Before(p, ps[i])
  }

  lemma {:induction false} UpIs(store: Store, n: Node, i: nat, up: Node)
    ensures Up(store, n, i, up) <==> i < |SuperTexts(n)| && SuperAt(store, n, i) == Some(up)
  {
    hide SubstituteText, RawName, TypeArgBindings;
  }

  lemma {:induction false} SubstitutedIs(w: Method, b: Bindings, m: Method)
    ensures Inherits(w, b, m) <==> m == SubstituteMethod(w, b)
  {
    hide SubstituteText;
    if Inherits(w, b, m) && b != map[] {
      assert m.paramTypes == SubstituteMethod(w, b).paramTypes;
    }
  }

  lemma {:induction false} LeadsNowhere(store: Store, root: Node, n: Node)
    ensures Leads(store, root, [], n) <==> n == root
  {
    hide Up;
    if n == root { assert Path(store, [root], []); }
  }

  lemma {:induction false} LeadsOn(store: Store, root: Node, step: nat, mid: Node, way: seq<nat>, n: Node)
    requires Up(store, root, step, mid) && Leads(store, mid, way, n)
    ensures Leads(store, root, [step] + way, n)
  {
    hide Up;
    var nodes :| Path(store, nodes, way) && nodes[0] == mid && nodes[|way|] == n;
    assert Path(store, [root] + nodes, [step] + way);
  }

  lemma {:induction false} LeadsFirst(store: Store, root: Node, way: seq<nat>, n: Node) returns (mid: Node)
    requires way != [] && Leads(store, root, way, n)
    ensures Up(store, root, way[0], mid) && Leads(store, mid, way[1..], n)
  {
    hide Up;
    var nodes :| Path(store, nodes, way) && nodes[0] == root && nodes[|way|] == n;
    mid := nodes[1];
    assert Path(store, nodes[1..], way[1..]);
  }

  lemma {:induction false} NotBothWays(p: Place, q: Place)
    ensures !Before(p, p) && (Before(p, q) ==> !Before(q, p))
    decreases |p.way|
  {
    if p.way != [] {
      var p' := Place(p.way[1..], p.index);
      NotBothWays(p', if q.way == [] then q else Place(q.way[1..], q.index));
    }
  }

  /** The part of the type it comes from: itself, or which of the supertypes. */
  function Part(p: Place): nat {
    if p.way == [] then 0 else p.way[0] + 1
  }

  /** The places that offer something in the parts from lo to hi, in order, and what they offer. */
  ghost predicate Listed(store: Store, n: Node, wanted: string -> bool, lo: nat, hi: nat, ps: seq<Place>, ms: seq<Method>) {
    && |ps| == |ms| && Ascending(ps)
    && (forall i | 0 <= i < |ps| :: lo <= Part(ps[i]) < hi && Offers(store, n, wanted, ps[i], ms[i]))
    && (forall p, m | Offers(store, n, wanted, p, m) && lo <= Part(p) < hi :: Occurs(ps, ms, p, m))
  }

  ghost predicate Occurs(ps: seq<Place>, ms: seq<Method>, p: Place, m: Method)
    requires |ps| == |ms|
  {
    exists i :: 0 <= i < |ps| && ps[i] == p && ms[i] == m
  }

  lemma {:induction false} OccursIn(ps: seq<Place>, ms: seq<Method>, qs: seq<Place>, ns: seq<Method>, p: Place, m: Method)
    requires |ps| == |ms| && |qs| == |ns| && (Occurs(ps, ms, p, m) || Occurs(qs, ns, p, m))
    ensures Occurs(ps + qs, ms + ns, p, m)
  {
    if Occurs(ps, ms, p, m) {
      var i :| 0 <= i < |ps| && ps[i] == p && ms[i] == m;
      assert (ps + qs)[i] == p && (ms + ns)[i] == m;
    } else {
      var i :| 0 <= i < |qs| && qs[i] == p && ns[i] == m;
      assert (ps + qs)[|ps| + i] == p && (ms + ns)[|ps| + i] == m;
    }
  }

  lemma {:induction false} ListedOn(store: Store, n: Node, wanted: string -> bool, lo: nat, mid: nat, hi: nat,
      ps: seq<Place>, ms: seq<Method>, qs: seq<Place>, ns: seq<Method>)
    requires lo <= mid <= hi && Listed(store, n, wanted, lo, mid, ps, ms) && Listed(store, n, wanted, mid, hi, qs, ns)
    ensures Listed(store, n, wanted, lo, hi, ps + qs, ms + ns)
  {
    hide Offers, Occurs;
    assert Ascending(ps + qs) by {
      forall i, j | 0 <= i < j < |ps + qs| ensures Before((ps + qs)[i], (ps + qs)[j]) {
        if i < |ps| <= j {
          assert Part(ps[i]) < Part(qs[j - |ps|]);
        }
      }
    }
    forall p, m | Offers(store, n, wanted, p, m) && lo <= Part(p) < hi ensures Occurs(ps + qs, ms + ns, p, m) {
      OccursIn(ps, ms, qs, ns, p, m);
    }
  }

  lemma {:induction false} OffersOwn(store: Store, n: Node, wanted: string -> bool, p: Place, m: Method)
    requires p.way == []
    ensures Offers(store, n, wanted, p, m) <==>
            p.index < |n.class_.methods| && m == SubstituteMethod(n.class_.methods[p.index], n.bindings) && wanted(m.name)
  {
    hide Leads, Inherits, SubstituteMethod;
    if p.index < |n.class_.methods| {
      SubstitutedIs(n.class_.methods[p.index], n.bindings, m);
    }
    LeadsNowhere(store, n, n);
    forall n' | Leads(store, n, [], n') ensures n' == n { LeadsNowhere(store, n, n'); }
  }

  /** The first k methods of the type itself. */
  ghost predicate ListedOwn(store: Store, n: Node, wanted: string -> bool, k: nat, ps: seq<Place>, ms: seq<Method>) {
    && |ps| == |ms| && Ascending(ps)
    && (forall i | 0 <= i < |ps| :: ps[i].way == [] && ps[i].index < k && Offers(store, n, wanted, ps[i], ms[i]))
    && (forall p, m | Offers(store, n, wanted, p, m) && p.way == [] && p.index < k :: Occurs(ps, ms, p, m))
  }

  lemma {:induction false} ListedOneMore(store: Store, n: Node, wanted: string -> bool, k: nat, ps: seq<Place>, ms: seq<Method>)
      returns (ps': seq<Place>)
    requires k < |n.class_.methods| && ListedOwn(store, n, wanted, k, ps, ms)
    ensures var m := SubstituteMethod(n.class_.methods[k], n.bindings);
            ListedOwn(store, n, wanted, k + 1, ps', ms + if wanted(m.name) then [m] else [])
  {
    hide Offers, Occurs, SubstituteMethod;
    var m := SubstituteMethod(n.class_.methods[k], n.bindings);
    var more, last := if wanted(m.name) then [m] else [], Place([], k);
    ps' := ps + if wanted(m.name) then [last] else [];
    OffersOwn(store, n, wanted, last, m);
    forall p, m' | Offers(store, n, wanted, p, m') && p.way == [] && p.index < k + 1 ensures Occurs(ps', ms + more, p, m') {
      OffersOwn(store, n, wanted, p, m');
      if p.index == k {
        assert p == last && m' == m;
        assert Occurs([last], [m], p, m') by { OccursAlone(last, m); }
      }
      OccursIn(ps, ms, ps'[|ps|..], more, p, m');
      assert ps' == ps + ps'[|ps|..];
    }
  }

  lemma {:induction false} OccursAlone(p: Place, m: Method)
    ensures Occurs([p], [m], p, m)
  {
    assert [p][0] == p && [m][0] == m;
  }

  lemma {:induction false} OwnListed(store: Store, n: Node, wanted: string -> bool, k: nat) returns (ps: seq<Place>)
    requires k <= |n.class_.methods|
    ensures ListedOwn(store, n, wanted, k, ps, Written(n, n.class_.methods[..k], wanted))
    decreases k
  {
    hide Offers, Occurs, SubstituteMethod;
    ps := [];
    if k == 0 {
      assert n.class_.methods[..0] == [];
    } else {
      var before := OwnListed(store, n, wanted, k - 1);
      WrittenNext(n, n.class_.methods, k - 1, wanted);
      hide Written, ListedOwn;
      ps := ListedOneMore(store, n, wanted, k - 1, before, Written(n, n.class_.methods[..k - 1], wanted));
    }
  }

  lemma {:induction false} WrittenListed(store: Store, n: Node, wanted: string -> bool) returns (ps: seq<Place>)
    ensures Listed(store, n, wanted, 0, 1, ps, Written(n, n.class_.methods, wanted))
  {
    hide Written, Occurs, Offers, Before, SubstituteMethod;
    ps := OwnListed(store, n, wanted, |n.class_.methods|);
    assert n.class_.methods[..|n.class_.methods|] == n.class_.methods;
    forall p, m | Offers(store, n, wanted, p, m) && p.way == [] ensures p.index < |n.class_.methods| {
      OffersOwn(store, n, wanted, p, m);
    }
  }

  /** The same places seen from one step below. */
  function Below(step: nat, ps: seq<Place>): seq<Place> {
    seq(|ps|, i requires 0 <= i < |ps| => Place([step] + ps[i].way, ps[i].index))
  }

  lemma {:induction false} OffersBelow(store: Store, n: Node, step: nat, up: Node, wanted: string -> bool, way: seq<nat>, index: nat, m: Method)
    requires Up(store, n, step, up)
    ensures Offers(store, n, wanted, Place([step] + way, index), m) <==> Offers(store, up, wanted, Place(way, index), m)
  {
    hide Leads, Inherits;
    forall n' ensures Leads(store, n, [step] + way, n') <==> Leads(store, up, way, n') {
      if Leads(store, up, way, n') { LeadsOn(store, n, step, up, way, n'); }
      if Leads(store, n, [step] + way, n') {
        var mid := LeadsFirst(store, n, [step] + way, n');
        assert ([step] + way)[1..] == way;
        UpIs(store, n, step, mid);
        UpIs(store, n, step, up);
      }
    }
  }

  lemma {:induction false} BelowAscends(step: nat, ps: seq<Place>)
    requires Ascending(ps)
    ensures Ascending(Below(step, ps))
  {
    var qs := Below(step, ps);
    forall i, j | 0 <= i < j < |qs| ensures Before(qs[i], qs[j]) {
      assert Before(ps[i], ps[j]);
      assert qs[i].way[1..] == ps[i].way && qs[j].way[1..] == ps[j].way;
    }
  }

  lemma {:induction false} BelowOccurs(step: nat, ps: seq<Place>, ms: seq<Method>, p: Place, m: Method)
    requires |ps| == |ms| && Part(p) == step + 1 && Occurs(ps, ms, Place(p.way[1..], p.index), m)
    ensures Occurs(Below(step, ps), ms, p, m)
  {
    var i :| 0 <= i < |ps| && ps[i] == Place(p.way[1..], p.index) && ms[i] == m;
    assert [step] + p.way[1..] == p.way;
    assert Below(step, ps)[i] == p;
  }

  lemma {:induction false} BelowListed(store: Store, n: Node, step: nat, up: Node, wanted: string -> bool, hi: nat, ps: seq<Place>, ms: seq<Method>)
    requires Up(store, n, step, up) && Listed(store, up, wanted, 0, hi, ps, ms)
    requires forall p, m | Offers(store, up, wanted, p, m) :: Part(p) < hi
    ensures Listed(store, n, wanted, step + 1, step + 2, Below(step, ps), ms)
  {
    hide Offers, Up, Ascending, Occurs;
    var qs := Below(step, ps);
    BelowAscends(step, ps);
    forall i | 0 <= i < |qs| ensures Part(qs[i]) == step + 1 && Offers(store, n, wanted, qs[i], ms[i]) {
      OffersBelow(store, n, step, up, wanted, ps[i].way, ps[i].index, ms[i]);
    }
    forall p, m | Offers(store, n, wanted, p, m) && Part(p) == step + 1 ensures Occurs(qs, ms, p, m) {
      assert p == Place([step] + p.way[1..], p.index);
      OffersBelow(store, n, step, up, wanted, p.way[1..], p.index, m);
      BelowOccurs(step, ps, ms, p, m);
    }
  }

  /** Nothing is offered past the last supertype, nor from one that the store does not have. */
  lemma {:induction false} OffersFrom(store: Store, n: Node, wanted: string -> bool, p: Place, m: Method)
    requires Offers(store, n, wanted, p, m) && Part(p) > 0
    ensures Part(p) <= |SuperTexts(n)| && SuperAt(store, n, Part(p) - 1).Some?
  {
    hide Leads, Inherits, SuperTexts, SuperAt, Up;
    var n' :| Leads(store, n, p.way, n') && p.index < |n'.class_.methods| && Inherits(n'.class_.methods[p.index], n'.bindings, m);
    var mid := LeadsFirst(store, n, p.way, n');
    UpIs(store, n, p.way[0], mid);
  }

  lemma {:induction false} AllListed(store: Store, rank: string -> nat, n: Node, wanted: string -> bool) returns (ps: seq<Place>)
    requires Acyclic(store, rank) && Proper(store, n)
    ensures Listed(store, n, wanted, 0, |SuperTexts(n)| + 1, ps, Declarations(store, rank, n, wanted))
    decreases rank(n.class_.fqn), |SuperTexts(n)| + 1
  {
    hide *;
    var own := WrittenListed(store, n, wanted);
    var above := AboveListed(store, rank, n, |SuperTexts(n)|, wanted);
    ps := own + above;
    ListedOn(store, n, wanted, 0, 1, |SuperTexts(n)| + 1, own, Written(n, n.class_.methods, wanted),
             above, Above(store, rank, n, |SuperTexts(n)|, wanted));
    DeclarationsAre(store, rank, n, wanted);
  }

  lemma {:induction false} AboveListed(store: Store, rank: string -> nat, n: Node, k: nat, wanted: string -> bool) returns (ps: seq<Place>)
    requires Acyclic(store, rank) && Proper(store, n) && k <= |SuperTexts(n)|
    ensures Listed(store, n, wanted, 1, k + 1, ps, Above(store, rank, n, k, wanted))
    decreases rank(n.class_.fqn), k
  {
    hide *;
    ps := [];
    if k == 0 {
      NoneListed(store, n, wanted, 1);
      AboveNone(store, rank, n, wanted);
    } else {
      var before := AboveListed(store, rank, n, k - 1, wanted);
      var last: seq<Place> := [];
      match SuperAt(store, n, k - 1) {
        case Some(s) =>
          SuperProper(store, n, k - 1);
          StepLower(store, rank, n, k - 1);
          var up := AllListed(store, rank, s, wanted);
          UpIs(store, n, k - 1, s);
          NothingPast(store, s, wanted);
          BelowListed(store, n, k - 1, s, wanted, |SuperTexts(s)| + 1, up, Declarations(store, rank, s, wanted));
          last := Below(k - 1, up);
        case None =>
          NoneFrom(store, n, wanted, k - 1);
      }
      ps := before + last;
      AboveStep(store, rank, n, k - 1, wanted);
      ListedOn(store, n, wanted, 1, k, k + 1, before, Above(store, rank, n, k - 1, wanted),
               last, AddedBy(store, rank, n, k - 1, wanted));
    }
  }

  lemma {:induction false} StepLower(store: Store, rank: string -> nat, n: Node, i: nat)
    requires Acyclic(store, rank) && Proper(store, n) && i < |SuperTexts(n)| && SuperAt(store, n, i).Some?
    ensures rank(SuperAt(store, n, i).value.class_.fqn) < rank(n.class_.fqn)
  {
    hide SuperAt, Proper, SuperTexts;
  }

  lemma {:induction false} NothingPast(store: Store, n: Node, wanted: string -> bool)
    ensures forall p, m | Offers(store, n, wanted, p, m) :: Part(p) < |SuperTexts(n)| + 1
  {
    hide Offers, SuperTexts, SuperAt;
    forall p, m | Offers(store, n, wanted, p, m) ensures Part(p) < |SuperTexts(n)| + 1 {
      if Part(p) > 0 { OffersFrom(store, n, wanted, p, m); }
    }
  }

  lemma {:induction false} NoneListed(store: Store, n: Node, wanted: string -> bool, k: nat)
    ensures Listed(store, n, wanted, k, k, [], [])
  {
    hide Offers;
  }

  lemma {:induction false} NoneFrom(store: Store, n: Node, wanted: string -> bool, i: nat)
    requires i < |SuperTexts(n)| && SuperAt(store, n, i).None?
    ensures Listed(store, n, wanted, i + 1, i + 2, [], [])
  {
    hide Offers, SuperTexts, SuperAt;
    forall p, m | Offers(store, n, wanted, p, m) ensures Part(p) != i + 1 {
      if Part(p) > 0 { OffersFrom(store, n, wanted, p, m); }
    }
  }

  lemma {:induction false} AboveNone(store: Store, rank: string -> nat, n: Node, wanted: string -> bool)
    requires Acyclic(store, rank) && Proper(store, n)
    ensures Above(store, rank, n, 0, wanted) == []
  {
  }

  lemma {:induction false} AboveStep(store: Store, rank: string -> nat, n: Node, i: nat, wanted: string -> bool)
    requires Acyclic(store, rank) && Proper(store, n) && i < |SuperTexts(n)|
    ensures Above(store, rank, n, i + 1, wanted) == Above(store, rank, n, i, wanted) + AddedBy(store, rank, n, i, wanted)
    ensures SuperAt(store, n, i).None? ==> AddedBy(store, rank, n, i, wanted) == []
    ensures SuperAt(store, n, i).Some? ==>
            var s := SuperAt(store, n, i).value;
            Proper(store, s) && AddedBy(store, rank, n, i, wanted) == Declarations(store, rank, s, wanted)
  {
    hide SuperAt, SuperTexts, Declarations, Acyclic;
    if SuperAt(store, n, i).Some? { SuperProper(store, n, i); }
  }

  // ------------------------------------------------------------------
  // The first of each signature

  ghost predicate Firsts(ms: seq<Method>, out: seq<Method>, at: seq<nat>) {
    && |at| == |out| && (forall i | 0 <= i < |at| :: at[i] < |ms| && out[i] == ms[at[i]])
    && (forall i, j | 0 <= i < j < |at| :: at[i] < at[j])
    && forall k | 0 <= k < |ms| :: FirstAt(out, at, k, Signature(ms[k]))
  }

  ghost predicate FirstAt(out: seq<Method>, at: seq<nat>, k: nat, signature: string)
    requires |at| == |out|
  {
    exists i :: 0 <= i < |at| && at[i] <= k && Signature(out[i]) == signature
  }

  lemma {:induction false} FirstAtStays(out: seq<Method>, at: seq<nat>, k: nat, signature: string, m: Method, n: nat)
    requires |at| == |out| && FirstAt(out, at, k, signature)
    ensures FirstAt(out + [m], at + [n], k, signature)
  {
    hide Signature;
    var i :| 0 <= i < |at| && at[i] <= k && Signature(out[i]) == signature;
    assert (at + [n])[i] == at[i] && (out + [m])[i] == out[i];
  }

  lemma {:induction false} FirstsOf(ms: seq<Method>) returns (at: seq<nat>)
    ensures Firsts(ms, AddNew([], ms), at)
    decreases |ms|
  {
    hide *;
    at := [];
    if ms == [] {
      NoFirsts();
    } else {
      var n := |ms| - 1;
      at := FirstsOf(ms[..n]);
      AddNewOn([], ms[..n], [ms[n]]);
      AddNewOne(AddNew([], ms[..n]), ms[n]);
      assert ms == ms[..n] + [ms[n]];
      at := FirstsNext(ms, n, AddNew([], ms[..n]), at);
    }
  }

  lemma {:induction false} NoFirsts()
    ensures Firsts([], AddNew([], []), [])
  {
  }

  lemma {:induction false} FirstsNext(ms: seq<Method>, n: nat, out: seq<Method>, at: seq<nat>) returns (at': seq<nat>)
    requires |ms| == n + 1 && Firsts(ms[..n], out, at)
    ensures Firsts(ms, if Has(out, Signature(ms[n])) then out else out + [ms[n]], at')
  {
    hide Signature, FirstAt, Has;
    assert forall k | 0 <= k < n :: ms[..n][k] == ms[k];
    if Has(out, Signature(ms[n])) {
      at' := at;
      FirstAtHas(out, at, n, Signature(ms[n]));
    } else {
      at' := at + [n];
      forall k | 0 <= k < |ms| ensures FirstAt(out + [ms[n]], at', k, Signature(ms[k])) {
        if k < n { FirstAtStays(out, at, k, Signature(ms[k]), ms[n], n); } else { FirstAtLast(out, at, n, ms[n]); }
      }
    }
  }

  lemma {:induction false} FirstAtHas(out: seq<Method>, at: seq<nat>, n: nat, signature: string)
    requires |at| == |out| && Has(out, signature) && forall i | 0 <= i < |at| :: at[i] < n
    ensures FirstAt(out, at, n, signature)
  {
    hide Signature;
    var i :| 0 <= i < |out| && Signature(out[i]) == signature;
    assert at[i] <= n;
  }

  lemma {:induction false} FirstAtLast(out: seq<Method>, at: seq<nat>, n: nat, m: Method)
    requires |at| == |out|
    ensures FirstAt(out + [m], at + [n], n, Signature(m))
  {
    hide Signature;
    assert (at + [n])[|out|] == n && (out + [m])[|out|] == m;
  }

  /** What the program computes is what is offered, each signature from the first place. */
  lemma {:induction false} AddNewCollects(store: Store, rank: string -> nat, root: Node, wanted: string -> bool)
    requires Acyclic(store, rank) && Proper(store, root)
    ensures Collected(store, root, wanted, AddNew([], Declarations(store, rank, root, wanted)))
  {
    hide *;
    var ms := Declarations(store, rank, root, wanted);
    var ps := AllListed(store, rank, root, wanted);
    var at := FirstsOf(ms);
    NothingPast(store, root, wanted);
    AddNewMeans([], ms);
    NoneDistinct();
    ListedFirsts(store, root, wanted, |SuperTexts(root)| + 1, ps, ms, AddNew([], ms), at);
  }

  lemma {:induction false} NoneDistinct()
    ensures Distinct([])
  {
  }

  lemma {:induction false} ListedFirsts(store: Store, root: Node, wanted: string -> bool, hi: nat,
      ps: seq<Place>, ms: seq<Method>, out: seq<Method>, at: seq<nat>)
    requires Listed(store, root, wanted, 0, hi, ps, ms) && Firsts(ms, out, at) && Distinct(out)
    requires forall p, m | Offers(store, root, wanted, p, m) :: Part(p) < hi
    ensures Collected(store, root, wanted, out)
  {
    hide Offers, Signature, Before, Distinct, FirstAt, Occurs, TakenBy;
    var qs := seq(|at|, i requires 0 <= i < |at| => ps[at[i]]);
    forall p, m | Offers(store, root, wanted, p, m) ensures TakenBy(qs, out, p, m) {
      assert Occurs(ps, ms, p, m);
      OccursTaken(ps, ms, out, at, qs, p, m);
    }
    assert Ascending(qs);
  }

  lemma {:induction false} OccursWhere(ps: seq<Place>, ms: seq<Method>, p: Place, m: Method) returns (k: nat)
    requires |ps| == |ms| && Occurs(ps, ms, p, m)
    ensures k < |ps| && ps[k] == p && ms[k] == m
  {
    k :| 0 <= k < |ps| && ps[k] == p && ms[k] == m;
  }

  lemma {:induction false} FirstWhere(ms: seq<Method>, out: seq<Method>, at: seq<nat>, k: nat) returns (i: nat)
    requires Firsts(ms, out, at) && k < |ms|
    ensures |at| == |out| && i < |at| && at[i] <= k && Signature(out[i]) == Signature(ms[k])
  {
    hide Signature;
    assert FirstAt(out, at, k, Signature(ms[k]));
    i :| 0 <= i < |at| && at[i] <= k && Signature(out[i]) == Signature(ms[k]);
  }

  lemma {:induction false} InOrder(ps: seq<Place>, i: nat, j: nat)
    requires Ascending(ps) && i < j < |ps|
    ensures Before(ps[i], ps[j])
  {
    hide Before;
  }

  lemma {:induction false} Takes(ps: seq<Place>, out: seq<Method>, p: Place, m: Method, i: nat)
    requires |ps| == |out| && i < |ps| && Signature(out[i]) == Signature(m) && !Before(p, ps[i])
    ensures TakenBy(ps, out, p, m)
  {
    hide Signature, Before;
  }

  lemma {:induction false} OccursTaken(ps: seq<Place>, ms: seq<Method>, out: seq<Method>, at: seq<nat>, qs: seq<Place>, p: Place, m: Method)
    requires |ps| == |ms| && |at| == |out| && Ascending(ps) && Firsts(ms, out, at) && Occurs(ps, ms, p, m)
    requires |qs| == |at| && forall i | 0 <= i < |at| :: at[i] < |ps| && qs[i] == ps[at[i]]
    ensures TakenBy(qs, out, p, m)
  {
    hide *;
    var k := OccursWhere(ps, ms, p, m);
    var i := FirstWhere(ms, out, at, k);
    NotBothWays(qs[i], p);
    if at[i] < k { InOrder(ps, at[i], k); }
    Takes(qs, out, p, m, i);
  }

  lemma {:induction false} CollectedHas(store: Store, root: Node, wanted: string -> bool, out: seq<Method>, p: Place, m: Method)
    requires Collected(store, root, wanted, out) && Offers(store, root, wanted, p, m)
    ensures Has(out, Signature(m))
  {
    hide Offers, Signature, Distinct, Before;
    var ps: seq<Place> :| |ps| == |out| && forall p, m | Offers(store, root, wanted, p, m) :: TakenBy(ps, out, p, m);
    assert TakenBy(ps, out, p, m);
  }

  /** On the diamond the methods of the topmost type are in the result. */
  lemma {:induction false} DiamondTopCollected(top: JavaClass, left: JavaClass, right: JavaClass, low: JavaClass,
      wanted: string -> bool, out: seq<Method>, i: nat)
    requires Diamond(top, left, right, low) && Collected(DiamondStore(top, left, right, low), Node(low, map[]), wanted, out)
    requires i < |top.methods| && wanted(top.methods[i].name)
    ensures Has(out, Signature(top.methods[i]))
  {
    hide Up, Leads, Signature, Collected, Has;
    var store := DiamondStore(top, left, right, low);
    var l, t, m := Node(left, map[]), Node(top, map[]), top.methods[i];
    BareUp(store, Node(low, map[]), 0, left);
    BareUp(store, l, 0, top);
    LeadsNowhere(store, t, t);
    LeadsOn(store, l, 0, t, [], t);
    LeadsOn(store, Node(low, map[]), 0, l, [0] + [], t);
    var p := Place([0] + ([0] + []), i);
    WrittenOffered(store, Node(low, map[]), wanted, p, t, m);
    CollectedHas(store, Node(low, map[]), wanted, out, p, m);
  }

  lemma {:induction false} WrittenOffered(store: Store, root: Node, wanted: string -> bool, p: Place, n: Node, m: Method)
    requires Leads(store, root, p.way, n) && p.index < |n.class_.methods| && Inherits(n.class_.methods[p.index], n.bindings, m)
    requires wanted(m.name)
    ensures Offers(store, root, wanted, p, m)
  {
    hide Leads, Inherits;
  }

  lemma {:induction false} BareUp(store: Store, n: Node, step: nat, c: JavaClass)
    requires n.bindings == map[] && step < |n.class_.interfaces| && n.class_.interfaces[step] == c.fqn
    requires Name(c.fqn) && c.fqn in store && store[c.fqn] == c && c.typeParams == []
    ensures Up(store, n, step, Node(c, map[]))
  {
    BareName(c.fqn);
    hide Parse, ArgsOf;
  }

  // ------------------------------------------------------------------
  // The types of inherited methods

  /** The references on the way, and the type parameters of the types they name. */
  function LevelsOn(nodes: seq<Node>, way: seq<nat>): seq<Level>
    requires |nodes| == |way| + 1
  {
    seq(|way|, i requires 0 <= i < |way| => Level(
      if way[i] < |nodes[i].class_.interfaces| then nodes[i].class_.interfaces[way[i]] else nodes[i].class_.superclass,
      nodes[i + 1].class_.typeParams))
  }

  lemma {:induction false} PathBindings(store: Store, nodes: seq<Node>, way: seq<nat>)
    requires Path(store, nodes, way) && nodes[0].bindings == map[]
    ensures nodes[|way|].bindings == BindingsAt(LevelsOn(nodes, way))
    ensures Own(nodes[0].class_.typeParams, LevelsOn(nodes, way)) == nodes[|way|].class_.typeParams
    decreases |way|
  {
    hide SubstituteText, TypeArgBindings, RawName;
    if way != [] {
      var n := |way| - 1;
      PathBindings(store, nodes[..|way|], way[..n]);
      assert LevelsOn(nodes, way)[..n] == LevelsOn(nodes[..|way|], way[..n]);
      assert Up(store, nodes[n], way[n], nodes[n + 1]);
    }
  }

  /** What is written at the end of a way, and what is meant at its start. */
  ghost predicate Meant(text: string, nodes: seq<Node>, way: seq<nat>, inherited: string)
    requires |nodes| == |way| + 1
  {
    Parse(inherited) == Parse(LevelByLevel(text, LevelsOn(nodes, way)))
  }

  ghost predicate Settled(text: string, own: seq<string>, all: set<string>) {
    WellFormed(Parse(text)) && Closed(Parse(text), own, all)
  }

  /** An inherited method has the parameter and return types written where it is declared, with
      the type parameters replaced level by level on the way down. */
  lemma {:induction false} InheritedMethodTypes(store: Store, nodes: seq<Node>, way: seq<nat>, w: Method, m: Method, all: set<string>)
    requires Path(store, nodes, way) && nodes[0].bindings == map[] && Inherits(w, nodes[|way|].bindings, m)
    requires Hierarchy(nodes[0].class_.typeParams, LevelsOn(nodes, way), all)
    requires forall i | 0 <= i < |w.paramTypes| :: Settled(ParamText(w, i), nodes[|way|].class_.typeParams, all)
    requires Settled(ReturnText(w), nodes[|way|].class_.typeParams, all)
    requires nodes[|way|].bindings == map[] ==>
             ReturnText(w) == w.returnType && forall i | 0 <= i < |w.paramTypes| :: ParamText(w, i) == w.paramTypes[i]
    ensures m.name == w.name && |m.paramTypes| == |w.paramTypes| && Meant(ReturnText(w), nodes, way, m.returnType)
    ensures forall i | 0 <= i < |w.paramTypes| :: Meant(ParamText(w, i), nodes, way, m.paramTypes[i])
  {
    hide Parse, LevelByLevel, BindingsAt, Hierarchy, WellFormed, Closed, LevelsOn, Up, ParamText, ReturnText, Own;
    var levels, b := LevelsOn(nodes, way), nodes[|way|].bindings;
    PathBindings(store, nodes, way);
    InheritedThrough(ReturnText(w), nodes[0].class_.typeParams, levels, all);
    SubstituteNoneText(ReturnText(w));
    forall i | 0 <= i < |w.paramTypes| ensures Meant(ParamText(w, i), nodes, way, m.paramTypes[i]) {
      assert Settled(ParamText(w, i), nodes[|way|].class_.typeParams, all);
      InheritedThrough(ParamText(w, i), nodes[0].class_.typeParams, levels, all);
      SubstituteNoneText(ParamText(w, i));
    }
  }

  lemma {:induction false} SubstituteNoneText(text: string)
    ensures SubstituteText(text, map[]) == text
  {
  }

  // ------------------------------------------------------------------
  // Signatures

  lemma {:induction false} CommasApart(parts: seq<string>)
    requires Parts(parts)
    ensures Pieces("", Commas(parts), 0) == parts
    decreases |parts|
  {
    hide Pieces, Neutral, Tight, Trim;
    if |parts| == 0 {
      PiecesEnd("", 0);
      NothingTrimmed();
    } else if |parts| == 1 {
      LastPiece("", parts[0]);
    } else {
      var rest := Commas(parts[1..]);
      assert Commas(parts) == parts[0] + ("," + rest);
      LastPiece("", parts[0]);
      PieceCut(parts[0], rest);
      CommasApart(parts[1..]);
    }
  }

  lemma {:induction false} NothingTrimmed()
    ensures Trim("") == ""
  {
  }

  lemma {:induction false} PieceCut(p: string, rest: string)
    requires Neutral(p) && Trim("" + p) == p
    ensures Pieces("", p + ("," + rest), 0) == [p] + Pieces("", rest, 0)
  {
    hide Trim;
    PiecesPass("", p, "," + rest, 0);
    assert ("," + rest)[1..] == rest && "" + p == p;
  }

  /** The signature tells name and parameter types: no two of printed types are mixed up. */
  lemma {:induction false} SignatureTells(m: Method, k: Method)
    requires '(' !in m.name && '(' !in k.name && Parts(m.paramTypes) && Parts(k.paramTypes)
    ensures Signature(m) == Signature(k) <==> m.name == k.name && m.paramTypes == k.paramTypes
  {
    hide Parts, Commas, Pieces;
    if Signature(m) == Signature(k) {
      SignatureCut(m);
      SignatureCut(k);
      CommasApart(m.paramTypes);
      CommasApart(k.paramTypes);
    }
  }

  lemma {:induction false} SignatureCut(m: Method)
    requires '(' !in m.name
    ensures var s, n := Signature(m), IndexOf(Signature(m), '(');
            n == |m.name| && n + 2 <= |s| && s[..n] == m.name && s[n + 1..|s| - 1] == Commas(m.paramTypes)
  {
    hide Commas, IndexOf;
    var c := Commas(m.paramTypes);
    assert Signature(m) == m.name + ['('] + (c + ")");
    IndexOfIs(m.name, '(', c + ")");
  }

  // ------------------------------------------------------------------
  // What has been seen

  /** A node that has been seen is of rank r at least, or is done with, or is current. */
  ghost predicate Finished(store: Store, rank: string -> nat, wanted: string -> bool,
                           seen: set<Node>, out: seq<Method>, r: nat, current: set<Node>)
    requires Acyclic(store, rank)
  {
    forall s | s in seen && s !in current ::
      Proper(store, s) && (rank(s.class_.fqn) >= r || Covered(out, Declarations(store, rank, s, wanted)))
  }

  ghost predicate NewDone(store: Store, rank: string -> nat, wanted: string -> bool,
                          seen: set<Node>, seen': set<Node>, out: seq<Method>)
    requires Acyclic(store, rank)
  {
    forall s | s in seen' && s !in seen :: Proper(store, s) && Covered(out, Declarations(store, rank, s, wanted))
  }

  lemma {:induction false} StaysFinished(store: Store, rank: string -> nat, wanted: string -> bool,
      seen: set<Node>, out: seq<Method>, seen': set<Node>, out': seq<Method>, r: nat, current: set<Node>)
    requires Acyclic(store, rank) && Finished(store, rank, wanted, seen, out, r, current)
    requires out <= out' && NewDone(store, rank, wanted, seen, seen', out')
    ensures Finished(store, rank, wanted, seen', out', r, current)
  {
    hide Declarations, Covered, Acyclic;
    forall s | s in seen' && s !in current
      ensures Proper(store, s) && (rank(s.class_.fqn) >= r || Covered(out', Declarations(store, rank, s, wanted)))
    {
      if s in seen && rank(s.class_.fqn) < r { CoveredMore(out, out', Declarations(store, rank, s, wanted)); }
    }
  }

  lemma {:induction false} NewDoneOn(store: Store, rank: string -> nat, wanted: string -> bool,
      seen: set<Node>, mid: set<Node>, out: seq<Method>, seen': set<Node>, out': seq<Method>)
    requires Acyclic(store, rank) && NewDone(store, rank, wanted, seen, mid, out)
    requires out <= out' && NewDone(store, rank, wanted, mid, seen', out')
    ensures NewDone(store, rank, wanted, seen, seen', out')
  {
    hide Declarations, Covered, Acyclic;
    forall s | s in seen' && s !in seen ensures Proper(store, s) && Covered(out', Declarations(store, rank, s, wanted)) {
      if s in mid { CoveredMore(out, out', Declarations(store, rank, s, wanted)); }
    }
  }

  // ------------------------------------------------------------------
  // The program

  class MethodWalk {
    const store: Store
    const wanted: string -> bool
    var out: seq<Method>
    var seen: set<Node>
    var signatures: set<string>

    constructor (store: Store, wanted: string -> bool)
      ensures this.store == store && this.wanted == wanted && out == [] && seen == {} && Valid()
    {
      this.store, this.wanted := store, wanted;
      out, seen, signatures := [], {}, {};
    }

    ghost predicate Valid()
      reads this
    {
      forall s :: s in signatures <==> Has(out, s)
    }

    /** Adds what the node declares and inherits, as far as it is new. */
    method Walk(n: Node, ghost rank: string -> nat)
      requires Acyclic(store, rank) && Proper(store, n) && Valid()
      requires Finished(store, rank, wanted, seen, out, rank(n.class_.fqn) + 1, {})
      modifies this
      ensures Valid() && out == AddNew(old(out), Declarations(store, rank, n, wanted))
      ensures NewDone(store, rank, wanted, old(seen), seen, out)
      decreases rank(n.class_.fqn), 1
    {
      hide Declarations, AddNew, Covered, Has;
      if n.class_.fqn == "" || n in seen {
        NothingNew(out, Declarations(store, rank, n, wanted));
        return;
      }
      seen := seen + {n};
      WalkNew(n, rank);
      AddNewMeans(old(out), Declarations(store, rank, n, wanted));
    }

    method WalkNew(n: Node, ghost rank: string -> nat)
      requires Acyclic(store, rank) && Proper(store, n) && Valid()
      requires Finished(store, rank, wanted, seen, out, rank(n.class_.fqn) + 1, {n})
      modifies this
      ensures Valid() && out == AddNew(old(out), Declarations(store, rank, n, wanted))
      ensures NewDone(store, rank, wanted, old(seen), seen, out)
      decreases rank(n.class_.fqn), 0
    {
      hide Valid, Finished, NewDone, Declarations, AddNew, Above, Written, SuperAt, Acyclic;
      ghost var own := Written(n, n.class_.methods, wanted);
      AddOwn(n);
      AddNewMeans(old(out), own);
      assert NewDone(store, rank, wanted, old(seen), seen, out) by { NoneNew(store, rank, wanted, seen, out); }
      StaysFinished(store, rank, wanted, old(seen), old(out), seen, out, rank(n.class_.fqn) + 1, {n});
      NoneAbove(store, rank, n, wanted);
      var texts := SuperTexts(n);
      var i := 0;
      while i < |texts|
        invariant 0 <= i <= |texts| && Valid()
        invariant out == AddNew(old(out), own + Above(store, rank, n, i, wanted))
        invariant NewDone(store, rank, wanted, old(seen), seen, out)
        invariant Finished(store, rank, wanted, seen, out, rank(n.class_.fqn) + 1, {n})
      {
        ghost var before, known := out, seen;
        ghost var added := WalkSuper(n, i, rank);
        AddNewMeans(before, added);
        NewDoneOn(store, rank, wanted, old(seen), known, before, seen, out);
        StaysFinished(store, rank, wanted, known, before, seen, out, rank(n.class_.fqn) + 1, {n});
        OneMoreAbove(store, rank, n, i, wanted, own, added, old(out));
        i := i + 1;
      }
      DeclarationsAre(store, rank, n, wanted);
    }

    method WalkSuper(n: Node, i: nat, ghost rank: string -> nat) returns (ghost added: seq<Method>)
      requires Acyclic(store, rank) && Proper(store, n) && Valid() && i < |SuperTexts(n)|
      requires Finished(store, rank, wanted, seen, out, rank(n.class_.fqn) + 1, {n})
      modifies this
      ensures added == AddedBy(store, rank, n, i, wanted)
      ensures Valid() && out == AddNew(old(out), added) && NewDone(store, rank, wanted, old(seen), seen, out)
      decreases rank(n.class_.fqn), 0, 0
    {
      hide Valid, Declarations, Covered, SuperAt;
      var s := SuperAt(store, n, i);
      added := [];
      if s.Some? {
        assert rank(s.value.class_.fqn) < rank(n.class_.fqn);
        SuperProper(store, n, i);
        Walk(s.value, rank);
        added := Declarations(store, rank, s.value, wanted);
      }
    }

    method AddOwn(n: Node)
      requires Valid()
      modifies this`out, this`signatures
      ensures Valid() && out == AddNew(old(out), Written(n, n.class_.methods, wanted))
    {
      hide *;
      var ms := n.class_.methods;
      NoneWritten(n, ms, wanted, out);
      var i := 0;
      while i < |ms|
        invariant 0 <= i <= |ms| && Valid()
        invariant out == AddNew(old(out), Written(n, ms[..i], wanted))
      {
        var m := SubstituteMethod(ms[i], n.bindings);
        NextAdded(n, ms, i, wanted, old(out));
        if wanted(m.name) {
          Add(m);
        }
        i := i + 1;
      }
      assert ms[..i] == ms;
    }

    method Add(m: Method)
      requires Valid()
      modifies this`out, this`signatures
      ensures Valid() && out == if Has(old(out), Signature(m)) then old(out) else old(out) + [m]
    {
      var signature := Signature(m);
      if signature in signatures {
        return;
      }
      signatures := signatures + {signature};
      forall s ensures Has(out + [m], s) <==> Has(out, s) || s == signature { HasOn(out, m, s); }
      out := out + [m];
    }
  }

  lemma {:induction false} HasOn(out: seq<Method>, m: Method, s: string)
    ensures Has(out + [m], s) <==> Has(out, s) || s == Signature(m)
  {
    var more := out + [m];
    assert more[|out|] == m && forall i | 0 <= i < |out| :: more[i] == out[i];
  }

  lemma {:induction false} WrittenNext(n: Node, ms: seq<Method>, i: nat, wanted: string -> bool)
    requires i < |ms|
    ensures var m := SubstituteMethod(ms[i], n.bindings);
            Written(n, ms[..i + 1], wanted) == Written(n, ms[..i], wanted) + (if wanted(m.name) then [m] else [])
  {
    hide SubstituteMethod;
    assert ms[..i + 1][..i] == ms[..i];
  }

  lemma {:induction false} NoneWritten(n: Node, ms: seq<Method>, wanted: string -> bool, out: seq<Method>)
    ensures AddNew(out, Written(n, ms[..0], wanted)) == out
  {
    assert ms[..0] == [];
  }

  lemma {:induction false} NextAdded(n: Node, ms: seq<Method>, i: nat, wanted: string -> bool, out: seq<Method>)
    requires i < |ms|
    ensures var m, before := SubstituteMethod(ms[i], n.bindings), AddNew(out, Written(n, ms[..i], wanted));
            AddNew(out, Written(n, ms[..i + 1], wanted)) ==
            if wanted(m.name) && !Has(before, Signature(m)) then before + [m] else before
  {
    hide AddNew, Written, Has, SubstituteMethod, Signature;
    var m := SubstituteMethod(ms[i], n.bindings);
    WrittenNext(n, ms, i, wanted);
    AddNewOn(out, Written(n, ms[..i], wanted), if wanted(m.name) then [m] else []);
    AddNewOne(AddNew(out, Written(n, ms[..i], wanted)), m);
  }

  lemma {:induction false} AddNewOne(out: seq<Method>, m: Method)
    ensures AddNew(out, [m]) == (if Has(out, Signature(m)) then out else out + [m]) && AddNew(out, []) == out
  {
    hide Has;
    assert [m][1..] == [];
  }

  lemma {:induction false} NoneNew(store: Store, rank: string -> nat, wanted: string -> bool, seen: set<Node>, out: seq<Method>)
    requires Acyclic(store, rank)
    ensures NewDone(store, rank, wanted, seen, seen, out)
  {
  }

  /** What the i-th supertype adds. */
  ghost function AddedBy(store: Store, rank: string -> nat, n: Node, i: nat, wanted: string -> bool): seq<Method>
    requires Acyclic(store, rank) && Proper(store, n) && i < |SuperTexts(n)|
  {
    hide SuperAt;
    match SuperAt(store, n, i)
    case Some(s) => SuperProper(store, n, i); Declarations(store, rank, s, wanted)
    case None => []
  }

  lemma {:induction false} NoneAbove(store: Store, rank: string -> nat, n: Node, wanted: string -> bool)
    requires Acyclic(store, rank) && Proper(store, n)
    ensures Written(n, n.class_.methods, wanted) + Above(store, rank, n, 0, wanted) == Written(n, n.class_.methods, wanted)
  {
    hide Written;
  }

  lemma {:induction false} OneMoreAbove(store: Store, rank: string -> nat, n: Node, i: nat, wanted: string -> bool,
      own: seq<Method>, added: seq<Method>, out: seq<Method>)
    requires Acyclic(store, rank) && Proper(store, n) && i < |SuperTexts(n)| && added == AddedBy(store, rank, n, i, wanted)
    ensures AddNew(AddNew(out, own + Above(store, rank, n, i, wanted)), added)
            == AddNew(out, own + Above(store, rank, n, i + 1, wanted))
  {
    hide AddNew, SuperAt, Acyclic;
    AddNewOn(out, own + Above(store, rank, n, i, wanted), added);
    assert own + Above(store, rank, n, i + 1, wanted) == own + Above(store, rank, n, i, wanted) + added;
  }

  lemma {:induction false} DeclarationsAre(store: Store, rank: string -> nat, n: Node, wanted: string -> bool)
    requires Acyclic(store, rank) && Proper(store, n)
    ensures Declarations(store, rank, n, wanted) == Written(n, n.class_.methods, wanted) + Above(store, rank, n, |SuperTexts(n)|, wanted)
  {
  }

  /** Every signature that is declared on some way up, once, in the form met first. */
  method CollectMethods(store: Store, cls: JavaClass, wanted: string -> bool, ghost rank: string -> nat) returns (out: seq<Method>)
    requires Acyclic(store, rank) && cls in store.Values
    ensures out == AddNew([], Declarations(store, rank, Node(cls, map[]), wanted))
    ensures Distinct(out) && Covered(out, Declarations(store, rank, Node(cls, map[]), wanted))
    ensures forall m | m in out :: m in Declarations(store, rank, Node(cls, map[]), wanted)
    ensures Collected(store, Node(cls, map[]), wanted, out)
  {
    hide Declarations, AddNew, Covered, Acyclic, Collected;
    var w := new MethodWalk(store, wanted);
    w.Walk(Node(cls, map[]), rank);
    out := w.out;
    AddNewMeans([], Declarations(store, rank, Node(cls, map[]), wanted));
    AddNewCollects(store, rank, Node(cls, map[]), wanted);
  }
}

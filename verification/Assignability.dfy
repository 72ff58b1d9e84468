/** Which types accept which, by a search over superclasses and interfaces with one shared
    set of visited names, and how an overload is picked by it. */
module Assignability {
  import opened TypeLanguage
  import opened BinaryNames

  function NameOf(store: Store, text: string): string {
    StoreName(store, RawName(text))
  }

  /** The class at x names y as its superclass or one of its interfaces. */
  ghost predicate Edge(store: Store, x: string, y: string) {
    && x in store && y != ""
    && (y == NameOf(store, store[x].superclass) || Implements(store, store[x].interfaces, y))
  }

  ghost predicate Implements(store: Store, interfaces: seq<string>, y: string) {
    exists i :: 0 <= i < |interfaces| && y == NameOf(store, interfaces[i])
  }

  ghost predicate Path(store: Store, p: seq<string>) {
    forall i | 0 <= i < |p| - 1 :: Edge(store, p[i], p[i + 1])
  }

  /** The declared type can be reached from the actual one, in no step or more. */
  ghost predicate Reaches(store: Store, x: string, y: string) {
    x != "" && exists p :: |p| > 0 && p[0] == x && p[|p| - 1] == y && Path(store, p)
  }

  lemma {:induction false} ReachesItself(store: Store, x: string)
    requires x != ""
    ensures Reaches(store, x, x)
  {
    assert Path(store, [x]);
  }

  lemma {:induction false} ReachesVia(store: Store, x: string, y: string, z: string)
    requires Edge(store, x, y) && Reaches(store, y, z) && x != ""
    ensures Reaches(store, x, z)
  {
    hide Edge;
    var p :| |p| > 0 && p[0] == y && p[|p| - 1] == z && Path(store, p);
    var q := [x] + p;
    forall i | 0 <= i < |q| - 1 ensures Edge(store, q[i], q[i + 1]) {
      if i > 0 { assert Edge(store, p[i - 1], p[i]); }
    }
    assert Path(store, q);
  }

  /** All edges out of the names lead back to the names. */
  ghost predicate ClosedUnder(store: Store, names: set<string>, within: set<string>) {
    forall x, y | x in names && Edge(store, x, y) :: y in within
  }

  lemma {:induction false} NoWayOut(store: Store, names: set<string>, p: seq<string>)
    requires |p| > 0 && p[0] in names && Path(store, p) && ClosedUnder(store, names, names)
    ensures p[|p| - 1] in names
    decreases |p|
  {
    if |p| > 1 {
      assert Edge(store, p[0], p[1]);
      forall i | 0 <= i < |p[1..]| - 1 ensures Edge(store, p[1..][i], p[1..][i + 1]) {
        assert Edge(store, p[i + 1], p[i + 2]);
      }
      NoWayOut(store, names, p[1..]);
    }
  }

  class AssignableWalk {
    const store: Store
    const declared: string
    var seen: set<string>

    constructor (store: Store, declared: string)
      ensures this.store == store && this.declared == declared && seen == {}
    {
      this.store, this.declared := store, declared;
      seen := {};
    }

    /** Finds the declared type, or sees everything below the name without finding it. */
    method Walk(text: string) returns (found: bool)
      requires declared !in seen && "" !in seen
      modifies this
      ensures found ==> NameOf(store, text) != "" && Reaches(store, NameOf(store, text), declared)
      ensures !found ==>
                && old(seen) <= seen && declared !in seen && "" !in seen
                && (NameOf(store, text) == "" || NameOf(store, text) in seen)
                && ClosedUnder(store, seen - old(seen), seen)
      decreases store.Keys - seen, 1
    {
      hide ClosedUnder, Reaches, NameOf, Edge;
      var name := NameOf(store, text);
      if name == "" || name in seen {
        assert ClosedUnder(store, seen - old(seen), seen) by { NothingNew(store, seen); }
        return false;
      }
      if name == declared {
        ReachesItself(store, name);
        return true;
      }
      ghost var before := seen;
      seen := seen + {name};
      if name !in store {
        UnknownClosed(store, before, name);
        return false;
      }
      found := WalkClass(name, before);
    }

    method WalkClass(name: string, ghost before: set<string>) returns (found: bool)
      requires name in store && name != "" && seen == before + {name} && name !in before
      requires declared !in seen && "" !in seen
      modifies this
      ensures found ==> Reaches(store, name, declared)
      ensures !found ==>
                && old(seen) <= seen && declared !in seen && "" !in seen && ClosedUnder(store, seen - before, seen)
      decreases store.Keys - seen, 2
    {
      hide ClosedUnder, Reaches, NameOf, Edge;
      found := Walk(store[name].superclass);
      if found {
        SuperEdge(store, name);
        ReachesVia(store, name, NameOf(store, store[name].superclass), declared);
        return;
      }
      var i := 0;
      while i < |store[name].interfaces|
        invariant 0 <= i <= |store[name].interfaces|
        invariant before + {name} <= seen && declared !in seen && "" !in seen
        invariant ClosedUnder(store, seen - (before + {name}), seen)
        invariant NameOf(store, store[name].superclass) == "" || NameOf(store, store[name].superclass) in seen
        invariant forall j | 0 <= j < i ::
                    NameOf(store, store[name].interfaces[j]) == "" || NameOf(store, store[name].interfaces[j]) in seen
      {
        ghost var mid := seen;
        found := Walk(store[name].interfaces[i]);
        if found {
          InterfaceEdge(store, name, i);
          ReachesVia(store, name, NameOf(store, store[name].interfaces[i]), declared);
          return;
        }
        CloseMore(store, before + {name}, mid, seen);
        i := i + 1;
      }
      CloseName(store, before, name, seen);
    }
  }

  lemma {:induction false} NothingNew(store: Store, seen: set<string>)
    ensures ClosedUnder(store, seen - seen, seen)
  {
  }

  lemma {:induction false} UnknownClosed(store: Store, before: set<string>, name: string)
    requires name !in store
    ensures ClosedUnder(store, before + {name} - before, before + {name})
  {
  }

  lemma {:induction false} SuperEdge(store: Store, x: string)
    requires x in store && NameOf(store, store[x].superclass) != ""
    ensures Edge(store, x, NameOf(store, store[x].superclass))
  {
  }

  lemma {:induction false} InterfaceEdge(store: Store, x: string, i: nat)
    requires x in store && i < |store[x].interfaces| && NameOf(store, store[x].interfaces[i]) != ""
    ensures Edge(store, x, NameOf(store, store[x].interfaces[i]))
  {
  }

  lemma {:induction false} CloseMore(store: Store, s: set<string>, mid: set<string>, t: set<string>)
    requires s <= mid <= t && ClosedUnder(store, mid - s, mid) && ClosedUnder(store, t - mid, t)
    ensures ClosedUnder(store, t - s, t)
  {
    hide Edge;
  }

  lemma {:induction false} CloseName(store: Store, before: set<string>, name: string, seen: set<string>)
    requires name in store && before + {name} <= seen && ClosedUnder(store, seen - (before + {name}), seen)
    requires NameOf(store, store[name].superclass) == "" || NameOf(store, store[name].superclass) in seen
    requires forall j | 0 <= j < |store[name].interfaces| ::
               NameOf(store, store[name].interfaces[j]) == "" || NameOf(store, store[name].interfaces[j]) in seen
    ensures ClosedUnder(store, seen - before, seen)
  {
    hide NameOf;
    forall x, y | x in seen - before && Edge(store, x, y) ensures y in seen {
      if x != name { assert x in seen - (before + {name}); }
    }
  }

  /** The search is true exactly when the declared type can be reached, cycles or not. */
  method TypeAssignable(store: Store, actual: string, declared: string) returns (r: bool)
    ensures r <==> Reaches(store, NameOf(store, actual), declared)
  {
    hide NameOf, Edge;
    var w := new AssignableWalk(store, declared);
    r := w.Walk(actual);
    if !r {
      assert w.seen - {} == w.seen;
      forall p | |p| > 0 && p[0] == NameOf(store, actual) && NameOf(store, actual) != "" && Path(store, p) ensures p[|p| - 1] != declared {
        NoWayOut(store, w.seen, p);
      }
    }
  }

  // ------------------------------------------------------------------
  // Overloads

  ghost predicate Accepts(store: Store, actual: string, declared: string) {
    var a, d := Parse(actual), Parse(declared);
    && a != ZERO && d != ZERO && a.arrayDepth == d.arrayDepth
    && (a.base == d.base || d.base == OBJECT || Reaches(store, NameOf(store, a.base), d.base))
  }

  method ParamTypeAssignable(store: Store, actual: string, declared: string) returns (r: bool)
    ensures r <==> Accepts(store, actual, declared)
  {
    hide Parse, NameOf, Reaches;
    var a := ParseTypeSpec(actual);
    var d := ParseTypeSpec(declared);
    if a == ZERO || d == ZERO {
      return false;
    }
    if a.arrayDepth != d.arrayDepth {
      return false;
    }
    if a.base == d.base {
      return true;
    }
    if d.base == OBJECT {
      return true;
    }
    r := TypeAssignable(store, a.base, d.base);
  }

  ghost predicate AcceptsAll(store: Store, actual: seq<string>, declared: seq<string>) {
    |actual| == |declared| && forall i | 0 <= i < |actual| :: Accepts(store, actual[i], declared[i])
  }

  method ParamTypesAssignable(store: Store, actual: seq<string>, declared: seq<string>) returns (r: bool)
    ensures r <==> AcceptsAll(store, actual, declared)
  {
    hide Accepts;
    if |actual| != |declared| {
      return false;
    }
    var i := 0;
    while i < |actual|
      invariant 0 <= i <= |actual| && forall j | 0 <= j < i :: Accepts(store, actual[j], declared[j])
    {
      var ok := ParamTypeAssignable(store, actual[i], declared[i]);
      if !ok {
        return false;
      }
      i := i + 1;
    }
    r := true;
  }

  datatype Pick = Chosen(index: nat) | NoMatch | Ambiguous

  ghost predicate Fits(store: Store, overloads: seq<seq<string>>, params: seq<string>, exactly: bool, i: nat) {
    i < |overloads| && if exactly then overloads[i] == params else AcceptsAll(store, params, overloads[i])
  }

  ghost predicate FitsNone(store: Store, overloads: seq<seq<string>>, params: seq<string>, exactly: bool) {
    forall i: nat :: !Fits(store, overloads, params, exactly, i)
  }

  ghost predicate FitsOnly(store: Store, overloads: seq<seq<string>>, params: seq<string>, exactly: bool, i: nat) {
    forall j: nat :: Fits(store, overloads, params, exactly, j) <==> j == i
  }

  ghost predicate FitsMany(store: Store, overloads: seq<seq<string>>, params: seq<string>, exactly: bool) {
    exists i: nat, j: nat :: i < j && Fits(store, overloads, params, exactly, i) && Fits(store, overloads, params, exactly, j)
  }

  /** The overloads that fit, in order. */
  method Matching(store: Store, overloads: seq<seq<string>>, params: seq<string>, exactly: bool) returns (matches: seq<nat>)
    ensures forall i: nat :: i in matches <==> Fits(store, overloads, params, exactly, i)
    ensures forall k, l | 0 <= k < l < |matches| :: matches[k] < matches[l]
  {
    hide AcceptsAll;
    matches := [];
    var i := 0;
    while i < |overloads|
      invariant 0 <= i <= |overloads|
      invariant forall j: nat :: j in matches <==> j < i && Fits(store, overloads, params, exactly, j)
      invariant forall k | 0 <= k < |matches| :: matches[k] < i
      invariant forall k, l | 0 <= k < l < |matches| :: matches[k] < matches[l]
    {
      var fits := overloads[i] == params;
      if !exactly {
        fits := ParamTypesAssignable(store, params, overloads[i]);
      }
      if fits {
        matches := matches + [i];
      }
      i := i + 1;
    }
  }

  /** A lone overload is taken as it is. Among several, the one that has exactly the given
      parameter types is picked, or, if none has, the one that accepts them; several such are
      ambiguous. */
  method PickOverload(store: Store, overloads: seq<seq<string>>, params: seq<string>) returns (r: Pick)
    ensures |overloads| == 1 ==> r == Chosen(0)
    ensures |overloads| != 1 && params == [] ==> r == Ambiguous
    ensures |overloads| != 1 && params != [] ==>
              match r
              case Chosen(i) =>
                FitsOnly(store, overloads, params, true, i)
                || (FitsNone(store, overloads, params, true) && FitsOnly(store, overloads, params, false, i))
              case NoMatch => FitsNone(store, overloads, params, true) && FitsNone(store, overloads, params, false)
              case Ambiguous =>
                FitsMany(store, overloads, params, true)
                || (FitsNone(store, overloads, params, true) && FitsMany(store, overloads, params, false))
  {
    if |overloads| == 1 {
      return Chosen(0);
    }
    if |params| == 0 {
      return Ambiguous;
    }
    hide Fits;
    var matches := Matching(store, overloads, params, true);
    ghost var exactly := true;
    if |matches| == 0 {
      assert FitsNone(store, overloads, params, true);
      matches := Matching(store, overloads, params, false);
      exactly := false;
    }
    if |matches| == 1 {
      assert matches[0] in matches && FitsOnly(store, overloads, params, exactly, matches[0]);
      r := Chosen(matches[0]);
    } else if |matches| == 0 {
      assert FitsNone(store, overloads, params, false);
      r := NoMatch;
    } else {
      assert matches[0] in matches && matches[1] in matches && matches[0] < matches[1];
      r := Ambiguous;
    }
  }
}

/** Decoded Go values. Maps and slices are reference values in Go, and a
    Hessian reference can make a decoded map contain itself, so the memory that
    holds them is explicit: a heap of objects that values address by index. */
module GoValues {
  import opened Options
  import opened Bytes

  /** A float64 carried by the bits or the compact form it came from; floating
      point arithmetic never matters here. */
  datatype Double = Bits(bits: uint64) | Whole(n: int) | Single(bits32: nat)

  datatype GoVal =
    | GNil
    | GBool(b: bool)
    | GInt(n: int64)
    | GDouble(d: Double)
    | GString(s: GoString)
    | GBytes(raw: seq<byte>)
    | GStrings(strs: seq<GoString>)
    | GMap(addr: nat)
    | GSlice(addr: nat)

  datatype Obj =
    | OMap(entries: map<GoString, GoVal>)
    | OSlice(items: seq<GoVal>)

  type Heap = seq<Obj>

  /** A finite value with every map and slice written out. */
  datatype Tree =
    | TLeaf(leaf: GoVal)
    | TMap(entries: map<GoString, Tree>)
    | TSlice(items: seq<Tree>)

  predicate IsContainer(v: GoVal) {
    v.GMap? || v.GSlice?
  }

  /** The value's address, if it has one, is of an object of its own kind. */
  predicate ValidVal(h: Heap, v: GoVal) {
    match v
    case GMap(a) => a < |h| && h[a].OMap?
    case GSlice(a) => a < |h| && h[a].OSlice?
    case _ => true
  }

  predicate ValidObj(h: Heap, o: Obj) {
    match o
    case OMap(m) => forall k | k in m :: ValidVal(h, m[k])
    case OSlice(s) => forall i | 0 <= i < |s| :: ValidVal(h, s[i])
  }

  ghost predicate ValidHeap(h: Heap) {
    forall a | 0 <= a < |h| :: ValidObj(h, h[a])
  }

  ghost predicate ValidVals(h: Heap, vs: seq<GoVal>) {
    forall i | 0 <= i < |vs| :: ValidVal(h, vs[i])
  }

  /** Allocation never invalidates a value. */
  lemma {:induction false} ValidValsGrow(h: Heap, h': Heap, vs: seq<GoVal>)
    requires h <= h' && ValidVals(h, vs)
    ensures ValidVals(h', vs)
  {
    forall i | 0 <= i < |vs| ensures ValidVal(h', vs[i]) {
      if IsContainer(vs[i]) {
        assert h[vs[i].addr] == h'[vs[i].addr];
      }
    }
  }

  // ------------------------------------------------------------------
  // Finite trees

  /** In heap h, g is the tree t, built from objects at addresses lo to hi only. */
  ghost predicate Rep(h: Heap, lo: nat, hi: nat, g: GoVal, t: Tree)
    decreases t
  {
    match t
    case TLeaf(leaf) => g == leaf && !IsContainer(g)
    case TMap(m) =>
      && g.GMap? && lo <= g.addr < hi <= |h| && h[g.addr].OMap?
      && h[g.addr].entries.Keys == m.Keys
      && forall k | k in m :: Rep(h, lo, hi, h[g.addr].entries[k], m[k])
    case TSlice(ts) =>
      && g.GSlice? && lo <= g.addr < hi <= |h| && h[g.addr].OSlice?
      && |h[g.addr].items| == |ts|
      && forall i | 0 <= i < |ts| :: Rep(h, lo, hi, h[g.addr].items[i], ts[i])
  }

  ghost predicate Agree(h: Heap, h': Heap, lo: nat, hi: nat) {
    hi <= |h| && hi <= |h'| && forall a | lo <= a < hi :: h[a] == h'[a]
  }

  /** The value has a finite tree. */
  ghost predicate HasTree(h: Heap, g: GoVal) {
    exists t :: Rep(h, 0, |h|, g, t)
  }

  lemma {:induction false} RepFrame(h: Heap, h': Heap, lo: nat, hi: nat, lo': nat, hi': nat, g: GoVal, t: Tree)
    requires Rep(h, lo, hi, g, t) && Agree(h, h', lo, hi)
    requires lo' <= lo && hi <= hi' <= |h'|
    ensures Rep(h', lo', hi', g, t)
    decreases t
  {
    match t
    case TLeaf(_) =>
    case TMap(m) =>
      forall k | k in m ensures Rep(h', lo', hi', h'[g.addr].entries[k], m[k]) {
        RepFrame(h, h', lo, hi, lo', hi', h[g.addr].entries[k], m[k]);
      }
    case TSlice(ts) =>
      forall i | 0 <= i < |ts| ensures Rep(h', lo', hi', h'[g.addr].items[i], ts[i]) {
        RepFrame(h, h', lo, hi, lo', hi', h[g.addr].items[i], ts[i]);
      }
  }

  /** A value has at most one tree. */
  lemma {:induction false} RepUnique(h: Heap, g: GoVal, t: Tree, u: Tree)
    requires Rep(h, 0, |h|, g, t) && Rep(h, 0, |h|, g, u)
    ensures t == u
    decreases t
  {
    match t
    case TLeaf(_) =>
    case TMap(m) =>
      forall k | k in m ensures m[k] == u.entries[k] {
        RepUnique(h, h[g.addr].entries[k], m[k], u.entries[k]);
      }
      assert m == u.entries;
    case TSlice(ts) =>
      forall i | 0 <= i < |ts| ensures ts[i] == u.items[i] {
        RepUnique(h, h[g.addr].items[i], ts[i], u.items[i]);
      }
      assert ts == u.items;
  }

  /** The value with the object at address a. */
  function ValueAt(h: Heap, a: nat): GoVal
    requires a < |h|
  {
    if h[a].OMap? then GMap(a) else GSlice(a)
  }

  // ------------------------------------------------------------------
  // Finite unfolding, computed

  /** The tree below v down to `fuel` nested containers; None when it is deeper. */
  function Unfold(h: Heap, v: GoVal, fuel: nat): Option<Tree>
    requires ValidHeap(h) && ValidVal(h, v)
    decreases fuel
  {
    if !IsContainer(v) then Some(TLeaf(v))
    else if fuel == 0 then None
    else match h[v.addr]
      case OMap(m) =>
        assert ValidObj(h, h[v.addr]);
        if forall k | k in m :: Unfold(h, m[k], fuel - 1).Some?
        then Some(TMap(map k | k in m :: Unfold(h, m[k], fuel - 1).value))
        else None
      case OSlice(s) =>
        assert ValidObj(h, h[v.addr]);
        if forall i | 0 <= i < |s| :: Unfold(h, s[i], fuel - 1).Some?
        then Some(TSlice(seq(|s|, i requires 0 <= i < |s| => Unfold(h, s[i], fuel - 1).value)))
        else None
  }

  lemma {:induction false} UnfoldSound(h: Heap, v: GoVal, fuel: nat)
    requires ValidHeap(h) && ValidVal(h, v) && Unfold(h, v, fuel).Some?
    ensures Rep(h, 0, |h|, v, Unfold(h, v, fuel).value)
    decreases fuel
  {
    if IsContainer(v) {
      assert ValidObj(h, h[v.addr]);
      match h[v.addr]
      case OMap(m) =>
        forall k | k in m ensures Rep(h, 0, |h|, m[k], Unfold(h, m[k], fuel - 1).value) {
          UnfoldSound(h, m[k], fuel - 1);
        }
      case OSlice(s) =>
        forall i | 0 <= i < |s| ensures Rep(h, 0, |h|, s[i], Unfold(h, s[i], fuel - 1).value) {
          UnfoldSound(h, s[i], fuel - 1);
        }
    }
  }

  /** The objects in `above`, with their trees, all lie strictly above the tree t. */
  ghost predicate Above(h: Heap, above: map<nat, Tree>, t: Tree) {
    forall a | a in above :: a < |h| && Rep(h, 0, |h|, ValueAt(h, a), above[a]) && t < above[a]
  }

  lemma {:induction false} AboveBounded(h: Heap, above: map<nat, Tree>, t: Tree)
    requires Above(h, above, t)
    ensures |above| <= |h|
  {
    Addresses(above.Keys, |h|);
  }

  /** On the way down a finite tree no object comes up twice: its tree would contain itself. */
  lemma {:induction false} AboveGrows(h: Heap, above: map<nat, Tree>, v: GoVal, t: Tree, child: Tree)
    requires Above(h, above, t) && IsContainer(v) && ValidVal(h, v) && Rep(h, 0, |h|, v, t) && child < t
    ensures v.addr !in above && Above(h, above[v.addr := t], child)
    ensures |above[v.addr := t]| == |above| + 1
  {
    hide Rep;
    assert v == ValueAt(h, v.addr);
    if v.addr in above {
      RepUnique(h, v, t, above[v.addr]);
    }
    assert above[v.addr := t].Keys == above.Keys + {v.addr};
  }

  /** As many levels as there are objects are always enough. */
  lemma {:induction false} UnfoldComplete(h: Heap, v: GoVal, t: Tree, above: map<nat, Tree>)
    requires ValidHeap(h) && ValidVal(h, v) && Rep(h, 0, |h|, v, t) && Above(h, above, t)
    ensures |above| <= |h| && Unfold(h, v, |h| - |above|) == Some(t)
    decreases t
  {
    hide Above, Unfold;
    AboveBounded(h, above, t);
    if !IsContainer(v) {
      UnfoldLeaf(h, v, |h| - |above|);
    } else {
      var above' := above[v.addr := t];
      AboveRoom(h, above, v, t);
      assert ValidObj(h, h[v.addr]);
      match h[v.addr]
      case OMap(m) =>
        forall k | k in m ensures Unfold(h, m[k], |h| - |above| - 1) == Some(t.entries[k]) {
          AboveGrows(h, above, v, t, t.entries[k]);
          UnfoldComplete(h, m[k], t.entries[k], above');
        }
        UnfoldMap(h, v.addr, t.entries, |h| - |above|);
      case OSlice(s) =>
        forall i | 0 <= i < |s| ensures Unfold(h, s[i], |h| - |above| - 1) == Some(t.items[i]) {
          AboveGrows(h, above, v, t, t.items[i]);
          UnfoldComplete(h, s[i], t.items[i], above');
        }
        UnfoldSlice(h, v.addr, t.items, |h| - |above|);
    }
  }

  lemma {:induction false} UnfoldLeaf(h: Heap, v: GoVal, fuel: nat)
    requires ValidHeap(h) && ValidVal(h, v) && !IsContainer(v)
    ensures Unfold(h, v, fuel) == Some(TLeaf(v))
  {
  }

  /** There is room for one object more. */
  lemma {:induction false} AboveRoom(h: Heap, above: map<nat, Tree>, v: GoVal, t: Tree)
    requires Above(h, above, t) && IsContainer(v) && ValidVal(h, v) && Rep(h, 0, |h|, v, t)
    ensures |above| < |h|
  {
    hide Rep;
    assert v == ValueAt(h, v.addr);
    if v.addr in above {
      RepUnique(h, v, t, above[v.addr]);
    }
    Addresses(above.Keys + {v.addr}, |h|);
  }

  lemma {:induction false} UnfoldMap(h: Heap, a: nat, ts: map<GoString, Tree>, fuel: nat)
    requires ValidHeap(h) && a < |h| && h[a].OMap? && ValidObj(h, h[a]) && h[a].entries.Keys == ts.Keys && fuel > 0
    requires forall k | k in ts :: Unfold(h, h[a].entries[k], fuel - 1) == Some(ts[k])
    ensures Unfold(h, GMap(a), fuel) == Some(TMap(ts))
  {
    assert Unfold(h, GMap(a), fuel).value.entries == ts;
  }

  lemma {:induction false} UnfoldSlice(h: Heap, a: nat, ts: seq<Tree>, fuel: nat)
    requires ValidHeap(h) && a < |h| && h[a].OSlice? && ValidObj(h, h[a]) && |h[a].items| == |ts| && fuel > 0
    requires forall i | 0 <= i < |ts| :: Unfold(h, h[a].items[i], fuel - 1) == Some(ts[i])
    ensures Unfold(h, GSlice(a), fuel) == Some(TSlice(ts))
  {
    assert Unfold(h, GSlice(a), fuel).value.items == ts;
  }

  lemma {:induction false} Addresses(s: set<nat>, n: nat)
    requires forall a | a in s :: a < n
    ensures |s| <= n
    decreases n
  {
    if n > 0 {
      var s' := s - {n - 1};
      Addresses(s', n - 1);
      if n - 1 in s { assert s == s' + {n - 1}; } else { assert s == s'; }
    }
  }

  /** Unfolding to as many levels as there are objects finds the tree exactly when
      there is one; the values without one are those that reach themselves. */
  lemma {:induction false} UnfoldFindsTree(h: Heap, v: GoVal)
    requires ValidHeap(h) && ValidVal(h, v)
    ensures Unfold(h, v, |h|).Some? <==> HasTree(h, v)
    ensures Unfold(h, v, |h|).Some? ==> Rep(h, 0, |h|, v, Unfold(h, v, |h|).value)
  {
    hide Rep, Unfold;
    if Unfold(h, v, |h|).Some? {
      UnfoldSound(h, v, |h|);
    }
    if t :| Rep(h, 0, |h|, v, t) {
      UnfoldComplete(h, v, t, map[]);
    }
  }
}

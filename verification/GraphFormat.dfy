/** Formatting a decoded value. The value may be a cyclic graph, so the program keeps
    the containers it is inside of on a stack, and also stops at a fixed depth. */
module GraphFormat {
  import opened Options
  import opened Bytes
  import opened GoValues
  import opened GraphPaths
  import opened HessianEncoding
  import opened HessianWriter

  const MAX_DEPTH: int := 128

  /** A formatted value: maps and slices of the program's result, no longer shared. */
  datatype Out =
    | Leaf(leaf: GoVal)
    | Byte(b: byte)
    | List(items: seq<Out>)
    | Object(entries: map<GoString, Out>)
    | Names(names: seq<GoString>)

  /** The class name a map carries under "@type"; empty when it carries none. */
  function ClassOf(m: map<GoString, GoVal>): GoString {
    if TYPE_KEY in m && m[TYPE_KEY].GString? then m[TYPE_KEY].s else []
  }

  function TypedOut(className: GoString, fields: map<GoString, Out>, names: seq<GoString>): Out {
    Object(map[Ascii("type") := Leaf(GString(className)),
               Ascii("fields") := Object(fields),
               Ascii("fieldNames") := Names(names)])
  }

  /** A formatted map: under its class name if it carries one. */
  ghost function MapOut(className: GoString, fields: map<GoString, Out>): Out {
    if className != [] then TypedOut(className, fields, SortedKeys(fields.Keys)) else Object(fields)
  }

  /** The keys of a map that are formatted. */
  function Fields(className: GoString, keys: set<GoString>): set<GoString> {
    if className != [] then keys - {TYPE_KEY} else keys
  }

  function StringsOut(strs: seq<GoString>): Out {
    List(seq(|strs|, i requires 0 <= i < |strs| => Leaf(GString(strs[i]))))
  }

  function BytesOut(raw: seq<byte>): Out {
    List(seq(|raw|, i requires 0 <= i < |raw| => Byte(raw[i])))
  }

  // ------------------------------------------------------------------
  // What formatting means: a finite tree, formatted

  ghost function TreeClass(m: map<GoString, Tree>): GoString {
    if TYPE_KEY in m && m[TYPE_KEY].TLeaf? && m[TYPE_KEY].leaf.GString? then m[TYPE_KEY].leaf.s else []
  }

  ghost function FormatTree(t: Tree): Out
    decreases t
  {
    match t
    case TLeaf(leaf) =>
      if leaf.GStrings? then StringsOut(leaf.strs)
      else if leaf.GBytes? then BytesOut(leaf.raw)
      else Leaf(leaf)
    case TSlice(ts) => List(seq(|ts|, i requires 0 <= i < |ts| => FormatTree(ts[i])))
    case TMap(m) => MapOut(TreeClass(m), map k | k in m && k in Fields(TreeClass(m), m.Keys) :: FormatTree(m[k]))
  }

  // ------------------------------------------------------------------
  // What the formatted value holds

  /** A map that carries the class name under "@type". */
  predicate Carries(m: map<GoString, Tree>, className: GoString) {
    className != [] && Ascii("@type") in m && m[Ascii("@type")] == TLeaf(GString(className))
  }

  predicate Untyped(m: map<GoString, Tree>) {
    Ascii("@type") in m ==> m[Ascii("@type")].TMap? || m[Ascii("@type")].TSlice? || !m[Ascii("@type")].leaf.GString?
                            || m[Ascii("@type")].leaf.s == []
  }

  /** The formatted value shows the tree: texts and bytes one by one, lists item by item, maps
      key by key, and a map with a class name as that name, its fields, and their names in order. */
  ghost predicate Shows(t: Tree, out: Out)
    decreases t, 1
  {
    match t
    case TLeaf(GStrings(strs)) => out.List? && |out.items| == |strs| && forall i | 0 <= i < |strs| :: out.items[i] == Leaf(GString(strs[i]))
    case TLeaf(GBytes(raw)) => out.List? && |out.items| == |raw| && forall i | 0 <= i < |raw| :: out.items[i] == Byte(raw[i])
    case TLeaf(leaf) => out == Leaf(leaf)
    case TSlice(ts) => out.List? && |out.items| == |ts| && forall i | 0 <= i < |ts| :: Shows(ts[i], out.items[i])
    case TMap(m) =>
      out.Object? &&
      if Untyped(m) then ShowsFields(t, m.Keys, out)
      else
        && out.entries.Keys == {Ascii("type"), Ascii("fields"), Ascii("fieldNames")}
        && out.entries[Ascii("type")].Leaf? && out.entries[Ascii("type")].leaf.GString? && Carries(m, out.entries[Ascii("type")].leaf.s)
        && ShowsFields(t, m.Keys - {Ascii("@type")}, out.entries[Ascii("fields")])
        && out.entries[Ascii("fieldNames")].Names?
        && Ascending(out.entries[Ascii("fieldNames")].names)
        && (set k | k in out.entries[Ascii("fieldNames")].names) == m.Keys - {Ascii("@type")}
  }

  ghost predicate ShowsFields(t: Tree, keys: set<GoString>, out: Out)
    requires t.TMap? && keys <= t.entries.Keys
    decreases t, 0
  {
    out.Object? && out.entries.Keys == keys && forall k | k in keys :: Shows(t.entries[k], out.entries[k])
  }

  // ------------------------------------------------------------------
  // How deep it goes

  /** The tree fits below depth d: nothing in it that is formatted lies deeper than the
      limit. The type name of a typed map is not itself formatted. */
  ghost predicate Shallow(t: Tree, d: int)
    decreases t
  {
    && d <= MAX_DEPTH
    && match t
       case TLeaf(leaf) => leaf.GBytes? && leaf.raw != [] ==> d < MAX_DEPTH
       case TSlice(ts) => forall i | 0 <= i < |ts| :: Shallow(ts[i], d + 1)
       case TMap(m) => forall k | k in m && k in Fields(TreeClass(m), m.Keys) :: Shallow(m[k], d + 1)
  }

  /** Nothing that is formatted lies more than n steps in; a byte of a byte string is one step. */
  ghost predicate Within(t: Tree, n: int)
    decreases t
  {
    n >= 0 &&
    match t
    case TLeaf(leaf) => leaf.GBytes? && leaf.raw != [] ==> n >= 1
    case TSlice(ts) => forall i | 0 <= i < |ts| :: Within(ts[i], n - 1)
    case TMap(m) => forall k | k in m && (k == Ascii("@type") ==> Untyped(m)) :: Within(m[k], n - 1)
  }

  lemma {:induction false} ClassIs(m: map<GoString, Tree>)
    ensures Untyped(m) <==> TreeClass(m) == []
    ensures !Untyped(m) ==> Carries(m, TreeClass(m))
    ensures forall c | Carries(m, c) :: TreeClass(m) == c
  {
    assert TYPE_KEY == Ascii("@type");
    hide Ascii;
  }

  /** From the outside there are 128 steps. */
  lemma {:induction false} ShallowIs(t: Tree, d: int)
    ensures Shallow(t, d) <==> Within(t, 128 - d)
    decreases t
  {
    assert TYPE_KEY == Ascii("@type");
    hide Ascii, Untyped, TreeClass;
    match t {
      case TLeaf(_) =>
      case TSlice(ts) =>
        forall i | 0 <= i < |ts| ensures Shallow(ts[i], d + 1) <==> Within(ts[i], 128 - d - 1) { ShallowIs(ts[i], d + 1); }
      case TMap(m) =>
        ClassIs(m);
        forall k | k in m ensures Shallow(m[k], d + 1) <==> Within(m[k], 128 - d - 1) { ShallowIs(m[k], d + 1); }
    }
  }

  lemma {:induction false} KeysApart()
    ensures Ascii("type") != Ascii("fields") && Ascii("fields") != Ascii("fieldNames") && Ascii("type") != Ascii("fieldNames")
  {
    assert |Ascii("type")| == 4 && |Ascii("fields")| == 6 && |Ascii("fieldNames")| == 10;
  }

  lemma {:induction false} NamesShown(keys: set<GoString>)
    ensures Ascending(SortedKeys(keys)) && (set k | k in SortedKeys(keys)) == keys
  {
    hide Ascending, SortedKeys;
    SortedKeysSorts(keys);
    forall k | k in keys ensures k in SortedKeys(keys) { EnumerationCovers(SortedKeys(keys), keys, k); }
  }

  lemma {:induction false} TypedShown(m: map<GoString, Tree>, c: GoString, fields: map<GoString, Out>)
    requires Carries(m, c) && fields.Keys == m.Keys - {Ascii("@type")} && forall k | k in fields :: Shows(m[k], fields[k])
    ensures Shows(TMap(m), TypedOut(c, fields, SortedKeys(fields.Keys)))
  {
    KeysApart();
    NamesShown(fields.Keys);
    hide Ascii, Ascending, SortedKeys;
  }

  /** Formatting a tree shows it. */
  lemma {:induction false} FormatShows(t: Tree)
    ensures Shows(t, FormatTree(t))
    decreases t
  {
    assert TYPE_KEY == Ascii("@type");
    hide Ascii, TypedOut, Carries, Untyped, TreeClass;
    match t {
      case TLeaf(_) =>
      case TSlice(ts) =>
        forall i | 0 <= i < |ts| ensures Shows(ts[i], FormatTree(ts[i])) { FormatShows(ts[i]); }
      case TMap(m) =>
        forall k | k in m ensures Shows(m[k], FormatTree(m[k])) { FormatShows(m[k]); }
        ClassIs(m);
        var c := TreeClass(m);
        var fields := map k | k in m && k in Fields(c, m.Keys) :: FormatTree(m[k]);
        hide FormatTree;
        FormatTreeMap(m, c, fields);
        if c != [] {
          TypedShown(m, c, fields);
        } else {
          PlainShown(m, fields);
        }
    }
  }

  lemma {:induction false} PlainShown(m: map<GoString, Tree>, fields: map<GoString, Out>)
    requires Untyped(m) && fields.Keys == m.Keys && forall k | k in fields :: Shows(m[k], fields[k])
    ensures Shows(TMap(m), Object(fields))
  {
    hide Untyped;
  }

  // ------------------------------------------------------------------
  // The program

  /** What formatting v at depth d must give: the formatted tree of v, when v has a
      finite tree that fits, and an error otherwise. */
  ghost predicate Formats(h: Heap, v: GoVal, d: int, o: Option<Out>) {
    match o
    case Some(out) => exists t :: Rep(h, 0, |h|, v, t) && Shallow(t, d) && out == FormatTree(t)
    case None => forall t | Rep(h, 0, |h|, v, t) :: !Shallow(t, d)
  }

  /** The stack holds the containers of the trail that leads to v. */
  ghost predicate Inside(h: Heap, stack: set<GoVal>, trail: seq<GoVal>, v: GoVal) {
    && Trail(h, trail + [v])
    && (forall s :: s in stack <==> s in trail)
    && ValidHeap(h) && ValidVal(h, v)
  }

  ghost predicate Formatted(h: Heap, v: GoVal, d: int, t: Tree, out: Out) {
    Rep(h, 0, |h|, v, t) && Shallow(t, d) && out == FormatTree(t)
  }

  lemma {:induction false} InsideValid(h: Heap, stack: set<GoVal>, trail: seq<GoVal>, v: GoVal)
    requires Inside(h, stack, trail, v)
    ensures ValidVal(h, v)
  {
  }

  lemma {:induction false} ItemIsChild(h: Heap, a: nat, i: nat)
    requires a < |h| && h[a].OSlice? && i < |h[a].items|
    ensures Child(h, GSlice(a), h[a].items[i])
  {
  }

  lemma {:induction false} EntryIsChild(h: Heap, a: nat, k: GoString)
    requires a < |h| && h[a].OMap? && k in h[a].entries
    ensures Child(h, GMap(a), h[a].entries[k])
  {
  }

  lemma {:induction false} StepInside(h: Heap, stack: set<GoVal>, trail: seq<GoVal>, v: GoVal, c: GoVal)
    requires Inside(h, stack, trail, v) && Child(h, v, c)
    ensures Inside(h, stack + {v}, trail + [v], c)
  {
    hide Child;
    var p, q := trail + [v], trail + [v] + [c];
    forall i | 0 <= i < |q| - 1 ensures Child(h, q[i], q[i + 1]) {
      if i < |p| - 1 { assert Child(h, p[i], p[i + 1]); }
    }
    assert ValidVal(h, c) by { ChildValid(h, v, c); }
  }

  lemma {:induction false} ChildValid(h: Heap, v: GoVal, c: GoVal)
    requires Child(h, v, c) && ValidHeap(h)
    ensures ValidVal(h, c)
  {
    assert ValidObj(h, h[v.addr]);
  }

  /** A container met again inside itself has no finite tree. */
  lemma {:induction false} OnTrail(h: Heap, stack: set<GoVal>, trail: seq<GoVal>, v: GoVal, d: int)
    requires Inside(h, stack, trail, v) && v in stack
    ensures Formats(h, v, d, None)
  {
    hide Child, Rep, Shallow;
    var i :| 0 <= i < |trail| && trail[i] == v;
    var p := trail + [v];
    TrailParts(h, p, i);
    CycleHasNoTree(h, p[i..], 0);
  }

  lemma {:induction false} EnumerationIsSet(ks: seq<GoString>, keys: set<GoString>)
    requires Enumerates(ks, keys)
    ensures (set i | 0 <= i < |ks| :: ks[i]) == keys
  {
    forall k | k in keys ensures k in ks { EnumerationCovers(ks, keys, k); }
  }

  lemma {:induction false} TreeFormatted(h: Heap, v: GoVal, d: int, o: Option<Out>) returns (t: Tree)
    requires Formats(h, v, d, o) && o.Some?
    ensures Formatted(h, v, d, t, o.value)
  {
    t :| Rep(h, 0, |h|, v, t) && Shallow(t, d) && o.value == FormatTree(t);
  }

  lemma {:induction false} ItemFails(h: Heap, a: nat, i: nat, d: int)
    requires a < |h| && h[a].OSlice? && i < |h[a].items| && Formats(h, h[a].items[i], d + 1, None)
    ensures Formats(h, GSlice(a), d, None)
  {
    forall t | Rep(h, 0, |h|, GSlice(a), t) ensures !Shallow(t, d) {
      assert Rep(h, 0, |h|, h[a].items[i], t.items[i]);
    }
  }

  lemma {:induction false} EntryFails(h: Heap, a: nat, k: GoString, d: int)
    requires a < |h| && h[a].OMap? && k in h[a].entries && Formats(h, h[a].entries[k], d + 1, None)
    requires k == TYPE_KEY ==> ClassOf(h[a].entries) == []
    ensures Formats(h, GMap(a), d, None)
  {
    forall t | Rep(h, 0, |h|, GMap(a), t) ensures !Shallow(t, d) {
      assert Rep(h, 0, |h|, h[a].entries[k], t.entries[k]);
      SameClass(h, h[a].entries, t.entries);
    }
  }

  lemma {:induction false} SameClass(h: Heap, m: map<GoString, GoVal>, ts: map<GoString, Tree>)
    requires m.Keys == ts.Keys && forall k | k in m :: Rep(h, 0, |h|, m[k], ts[k])
    ensures ClassOf(m) == TreeClass(ts)
  {
    if TYPE_KEY in m {
      assert Rep(h, 0, |h|, m[TYPE_KEY], ts[TYPE_KEY]);
    }
  }

  lemma {:induction false} SliceFormatted(h: Heap, a: nat, d: int, ts: seq<Tree>, out: seq<Out>)
    requires a < |h| && h[a].OSlice? && d <= MAX_DEPTH && |h[a].items| == |ts| == |out|
    requires forall i | 0 <= i < |ts| :: Formatted(h, h[a].items[i], d + 1, ts[i], out[i])
    ensures Formats(h, GSlice(a), d, Some(List(out)))
  {
    hide Formatted;
    forall i | 0 <= i < |ts|
      ensures Rep(h, 0, |h|, h[a].items[i], ts[i]) && Shallow(ts[i], d + 1) && out[i] == FormatTree(ts[i])
    {
      FormattedParts(h, h[a].items[i], d + 1, ts[i], out[i]);
    }
    var t := TSlice(ts);
    assert Rep(h, 0, |h|, GSlice(a), t) && Shallow(t, d);
    assert FormatTree(t).items == out;
  }

  lemma {:induction false} FormattedParts(h: Heap, v: GoVal, d: int, t: Tree, out: Out)
    requires Formatted(h, v, d, t, out)
    ensures Rep(h, 0, |h|, v, t) && Shallow(t, d) && out == FormatTree(t)
  {
  }

  /** Every entry that is formatted has been; the type name's tree is its leaf. */
  lemma {:induction false} MapFormatted(h: Heap, a: nat, d: int, ts: map<GoString, Tree>, out: map<GoString, Out>)
    requires a < |h| && h[a].OMap? && d <= MAX_DEPTH && ts.Keys == out.Keys
    requires out.Keys == Fields(ClassOf(h[a].entries), h[a].entries.Keys)
    requires forall k | k in out :: Formatted(h, h[a].entries[k], d + 1, ts[k], out[k])
    ensures Formats(h, GMap(a), d, Some(MapOut(ClassOf(h[a].entries), out)))
  {
    hide Formatted, Shallow, FormatTree, MapOut, ClassOf;
    var m := h[a].entries;
    var c := ClassOf(m);
    var all := if c != [] then ts[TYPE_KEY := TLeaf(GString(c))] else ts;
    forall k | k in out
      ensures Rep(h, 0, |h|, m[k], all[k]) && Shallow(all[k], d + 1) && out[k] == FormatTree(all[k])
    {
      FormattedParts(h, m[k], d + 1, ts[k], out[k]);
    }
    assert c != [] ==> TYPE_KEY in m && m[TYPE_KEY] == GString(c) by { ClassEntry(m); }
    assert all.Keys == m.Keys;
    assert forall k | k in m :: Rep(h, 0, |h|, m[k], all[k]);
    SameClass(h, m, all);
    assert Rep(h, 0, |h|, GMap(a), TMap(all));
    assert Shallow(TMap(all), d) by { ShallowMap(all, d, c); }
    assert FormatTree(TMap(all)) == MapOut(c, out) by { FormatTreeMap(all, c, out); }
  }

  /** The first i keys have their entries formatted. */
  ghost predicate EntriesDone(h: Heap, m: map<GoString, GoVal>, keys: seq<GoString>, i: nat, d: int,
                              ts: map<GoString, Tree>, out: map<GoString, Out>)
    requires i <= |keys|
  {
    && out.Keys == ts.Keys == (set j | 0 <= j < i :: keys[j])
    && forall k | k in out :: k in m && Formatted(h, m[k], d, ts[k], out[k])
  }

  lemma {:induction false} NoneDone(h: Heap, m: map<GoString, GoVal>, keys: seq<GoString>, d: int)
    ensures EntriesDone(h, m, keys, 0, d, map[], map[])
  {
  }

  lemma {:induction false} EntryDone(h: Heap, m: map<GoString, GoVal>, keys: seq<GoString>, i: nat, d: int,
      ts: map<GoString, Tree>, out: map<GoString, Out>, t: Tree, o: Out)
    requires i < |keys| && EntriesDone(h, m, keys, i, d, ts, out) && keys[i] in m && Formatted(h, m[keys[i]], d, t, o)
    ensures EntriesDone(h, m, keys, i + 1, d, ts[keys[i] := t], out[keys[i] := o])
  {
    hide Formatted;
    var more := out[keys[i] := o];
    assert more.Keys == out.Keys + {keys[i]} && ts[keys[i] := t].Keys == ts.Keys + {keys[i]};
    assert (set j | 0 <= j < i + 1 :: keys[j]) == (set j | 0 <= j < i :: keys[j]) + {keys[i]};
  }

  lemma {:induction false} AllDone(h: Heap, a: nat, keys: seq<GoString>, d: int, ts: map<GoString, Tree>, out: map<GoString, Out>)
    requires a < |h| && h[a].OMap? && d <= MAX_DEPTH && EntriesDone(h, h[a].entries, keys, |keys|, d + 1, ts, out)
    requires Enumerates(keys, Fields(ClassOf(h[a].entries), h[a].entries.Keys))
    ensures Formats(h, GMap(a), d, Some(MapOut(ClassOf(h[a].entries), out)))
  {
    hide Formatted, Formats, MapOut, ClassOf, Fields, Enumerates;
    EnumerationIsSet(keys, Fields(ClassOf(h[a].entries), h[a].entries.Keys));
    MapFormatted(h, a, d, ts, out);
  }

  lemma {:induction false} FieldKeys(m: map<GoString, GoVal>, keys: seq<GoString>)
    requires keys == SortedKeys(Fields(ClassOf(m), m.Keys))
    ensures Enumerates(keys, Fields(ClassOf(m), m.Keys))
    ensures forall i | 0 <= i < |keys| :: keys[i] in m && (keys[i] == TYPE_KEY ==> ClassOf(m) == [])
  {
    hide ClassOf, SortedKeys;
    SortedKeysSorts(Fields(ClassOf(m), m.Keys));
  }

  lemma {:induction false} InsideMap(h: Heap, stack: set<GoVal>, trail: seq<GoVal>, a: nat)
    requires Inside(h, stack, trail, GMap(a))
    ensures a < |h| && h[a].OMap?
  {
  }

  lemma {:induction false} MapOuts(className: GoString, fields: map<GoString, Out>)
    ensures MapOut(className, fields) ==
            if className != [] then TypedOut(className, fields, SortedKeys(fields.Keys)) else Object(fields)
  {
  }

  lemma {:induction false} ClassEntry(m: map<GoString, GoVal>)
    ensures ClassOf(m) != [] ==> TYPE_KEY in m && m[TYPE_KEY] == GString(ClassOf(m))
  {
  }

  lemma {:induction false} ShallowMap(ts: map<GoString, Tree>, d: int, c: GoString)
    requires d <= MAX_DEPTH && c == TreeClass(ts)
    requires forall k | k in Fields(c, ts.Keys) :: Shallow(ts[k], d + 1)
    ensures Shallow(TMap(ts), d)
  {
  }

  lemma {:induction false} FormatTreeMap(ts: map<GoString, Tree>, c: GoString, out: map<GoString, Out>)
    requires c == TreeClass(ts) && out.Keys == Fields(c, ts.Keys)
    requires forall k | k in out :: out[k] == FormatTree(ts[k])
    ensures FormatTree(TMap(ts)) == MapOut(c, out)
  {
    assert out == map k | k in ts && k in Fields(c, ts.Keys) :: FormatTree(ts[k]);
  }

  /** The answer is determined, is an error on every value that reaches a cycle, and is an
      error on other values only when they are too deep. */
  lemma {:induction false} FormatAnswers(h: Heap, v: GoVal, d: int, o: Option<Out>, o': Option<Out>)
    requires ValidHeap(h) && ValidVal(h, v) && Formats(h, v, d, o)
    ensures Formats(h, v, d, o') ==> o == o'
    ensures ReachesCycle(h, v) ==> o == None
    ensures !ReachesCycle(h, v) ==>
              exists t :: Rep(h, 0, |h|, v, t) && o == if Shallow(t, d) then Some(FormatTree(t)) else None
  {
    hide FormatTree, ReachesCycle;
    FiniteUnlessCyclic(h, v);
    if HasTree(h, v) {
      var t :| Rep(h, 0, |h|, v, t);
      forall u | Rep(h, 0, |h|, v, u) ensures t == u { RepUnique(h, v, t, u); }
    }
  }

  /** What comes back shows a finite tree of the value within 128 steps; an error comes back
      exactly where it has no such tree. */
  lemma {:induction false} FormattedSays(h: Heap, v: GoVal, d: int, o: Option<Out>)
    requires Formats(h, v, d, o)
    ensures o.Some? ==> exists t :: Rep(h, 0, |h|, v, t) && Within(t, 128 - d) && Shows(t, o.value)
    ensures o.None? ==> forall t | Rep(h, 0, |h|, v, t) :: !Within(t, 128 - d)
  {
    hide Rep, Shallow, Within, Shows, FormatTree;
    forall t ensures Shallow(t, d) <==> Within(t, 128 - d) { ShallowIs(t, d); }
    if o.Some? {
      var t := TreeFormatted(h, v, d, o);
      FormatShows(t);
    }
  }

  class FormatState {
    const h: Heap
    var stack: set<GoVal>

    constructor (h: Heap)
      ensures this.h == h && stack == {}
    {
      this.h := h;
      stack := {};
    }

    method FormatValue(v: GoVal, depth: nat, ghost trail: seq<GoVal>) returns (o: Option<Out>)
      requires Inside(h, stack, trail, v)
      modifies this
      ensures stack == old(stack) && Formats(h, v, depth, o)
      decreases MAX_DEPTH + 1 - depth, 2
    {
      if depth > MAX_DEPTH {
        return None;
      }
      match v
      case GMap(a) => o := FormatMap(a, depth, trail);
      case GSlice(a) => o := FormatSlice(a, depth, trail);
      case GStrings(strs) =>
        o := Some(StringsOut(strs));
        assert Rep(h, 0, |h|, v, TLeaf(v));
      case GBytes(raw) =>
        assert Rep(h, 0, |h|, v, TLeaf(v));
        o := if raw != [] && depth + 1 > MAX_DEPTH then None else Some(BytesOut(raw));
      case _ =>
        o := Some(Leaf(v));
        assert Rep(h, 0, |h|, v, TLeaf(v));
    }

    method FormatSlice(a: nat, depth: nat, ghost trail: seq<GoVal>) returns (o: Option<Out>)
      requires depth <= MAX_DEPTH && Inside(h, stack, trail, GSlice(a))
      modifies this
      ensures stack == old(stack) && Formats(h, GSlice(a), depth, o)
      decreases MAX_DEPTH + 1 - depth, 1
    {
      hide Rep, Shallow, FormatTree, Inside, Formats, Child;
      var v := GSlice(a);
      assert ValidVal(h, v) by { InsideValid(h, stack, trail, v); }
      if v in stack {
        OnTrail(h, stack, trail, v, depth);
        return None;
      }
      ghost var outer := stack;
      stack := stack + {v};
      var items := h[a].items;
      var out: seq<Out> := [];
      ghost var trees: seq<Tree> := [];
      var i := 0;
      while i < |items|
        invariant 0 <= i <= |items| && |out| == |trees| == i && stack == outer + {v}
        invariant forall j | 0 <= j < i :: Formatted(h, items[j], depth + 1, trees[j], out[j])
      {
        assert Child(h, v, items[i]) by { ItemIsChild(h, a, i); }
        StepInside(h, outer, trail, v, items[i]);
        var item := FormatValue(items[i], depth + 1, trail + [v]);
        if item.None? {
          ItemFails(h, a, i, depth);
          stack := stack - {v};
          return None;
        }
        ghost var t := TreeFormatted(h, items[i], depth + 1, item);
        out, trees := out + [item.value], trees + [t];
        i := i + 1;
      }
      stack := stack - {v};
      o := Some(List(out));
      SliceFormatted(h, a, depth, trees, out);
    }

    method FormatMap(a: nat, depth: nat, ghost trail: seq<GoVal>) returns (o: Option<Out>)
      requires depth <= MAX_DEPTH && Inside(h, stack, trail, GMap(a))
      modifies this
      ensures stack == old(stack) && Formats(h, GMap(a), depth, o)
      decreases MAX_DEPTH + 1 - depth, 1
    {
      hide *;
      var v := GMap(a);
      InsideMap(h, stack, trail, a);
      if v in stack {
        OnTrail(h, stack, trail, v, depth);
        return None;
      }
      ghost var outer := stack;
      stack := stack + {v};
      var m := h[a].entries;
      var className := ClassOf(m);
      var keys := Writer.SortKeys(Fields(className, m.Keys));
      FieldKeys(m, keys);
      var out: map<GoString, Out> := map[];
      ghost var trees: map<GoString, Tree> := map[];
      NoneDone(h, m, keys, depth + 1);
      var i := 0;
      while i < |keys|
        invariant 0 <= i <= |keys| && stack == outer + {v}
        invariant EntriesDone(h, m, keys, i, depth + 1, trees, out)
      {
        var k := keys[i];
        EntryIsChild(h, a, k);
        StepInside(h, outer, trail, v, m[k]);
        var item := FormatValue(m[k], depth + 1, trail + [v]);
        if item.None? {
          EntryFails(h, a, k, depth);
          stack := stack - {v};
          return None;
        }
        ghost var t := TreeFormatted(h, m[k], depth + 1, item);
        EntryDone(h, m, keys, i, depth + 1, trees, out, t, item.value);
        out, trees := out[k := item.value], trees[k := t];
        i := i + 1;
      }
      stack := stack - {v};
      AllDone(h, a, keys, depth, trees, out);
      if className != [] {
        var names := Writer.SortKeys(out.Keys);
        o := Some(TypedOut(className, out, names));
      } else {
        o := Some(Object(out));
      }
      MapOuts(className, out);
    }
  }
}

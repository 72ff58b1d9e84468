/** When decoding comes to an end. The one thing that can keep it from ending is the key of a
    map entry that contains itself, and only a reference can make a value contain itself. */
module DecoderEnds {
  import opened Options
  import opened Bytes
  import opened GoValues
  import opened HessianDecoding
  import opened GraphPaths

  /** Where a read does not end, it has come to an entry whose key reaches a cycle. */
  lemma {:induction false} EndsUnlessKeyCyclic(inp: Input, s: DState)
    requires Valid(inp, s) && ReadValue(inp, s).Diverge?
    ensures var last := ReadValue(inp, s).last;
            && s.offset <= last.offset <= |inp.data|
            && ValidHeap(last.heap) && ValidVal(last.heap, last.key) && ReachesCycle(last.heap, last.key)
  {
    hide ReadValue, Valid;
    var last := ReadValue(inp, s).last;
    FiniteUnlessCyclic(last.heap, last.key);
    UnfoldFindsTree(last.heap, last.key);
  }

  // ------------------------------------------------------------------
  // Such bytes exist

  /** An untyped map with two entries: the first value is the map itself, and so is the second key. */
  const SELF_KEYED: seq<byte> := ['M' as int, 'N' as int, 0x4a, 0, 0x4a, 0, 'N' as int, 'z' as int]

  const FRESH: DState := DState(0, 0, [], [], [], [])

  lemma {:induction false} NilRead(inp: Input, s: DState)
    requires Valid(inp, s) && s.depth < inp.limits.maxDepth && Peeks(inp, s, 'N' as int)
    ensures ReadValue(inp, s) == Ok(GNil, s.(offset := s.offset + 1))
  {
  }

  lemma {:induction false} RefRead(inp: Input, s: DState, ref: byte)
    requires Valid(inp, s) && s.depth < inp.limits.maxDepth && s.offset + 1 < |inp.data|
    requires inp.data[s.offset] == 0x4a && inp.data[s.offset + 1] == ref && ref < |s.refs|
    ensures ReadValue(inp, s) == Ok(s.refs[ref], s.(offset := s.offset + 2))
  {
  }

  ghost predicate SelfKeyed(inp: Input) {
    inp.data == SELF_KEYED && inp.limits.Positive() && inp.limits.maxDepth >= 2 && inp.limits.maxItems >= 2
  }

  /** The map has been opened and registered. */
  function Opened(offset: nat): DState {
    DState(offset, 1, [OMap(map[])], [GMap(0)], [], [])
  }

  /** It has itself as its first value. */
  function Tied(inp: Input, offset: nat): DState {
    DState(offset, 1, [OMap(map[inp.sprint(TLeaf(GNil)) := GMap(0)])], [GMap(0)], [], [])
  }

  lemma {:induction false} StatesValid(inp: Input, offset: nat)
    requires SelfKeyed(inp) && offset <= 8
    ensures Valid(inp, Opened(offset)) && Valid(inp, Tied(inp, offset))
    ensures Valid(inp, FRESH) && Valid(inp, DState(1, 1, [], [], [], []))
  {
  }

  lemma {:induction false} MapTagged(inp: Input, s: DState)
    requires Valid(inp, s)
    ensures ReadTagged(inp, s, 'M' as int) == ReadMap(inp, s)
  {
    hide ReadMap, Valid;
  }

  lemma {:induction false} KeyAndValueRead(inp: Input, s: DState, key: GoVal, s1: DState, v: GoVal, s2: DState)
    requires Valid(inp, s) && ReadValue(inp, s) == Ok(key, s1) && Valid(inp, s1) && ReadValue(inp, s1) == Ok(v, s2)
    ensures ReadKeyAndValue(inp, s) == Ok((key, v), s2)
  {
    hide ReadValue, Valid, Safe, Grew;
  }

  /** One pair, when its key renders as the text, and when it never does. */
  lemma {:induction false} PairStored(inp: Input, s: DState, key: GoVal, v: GoVal, s1: DState)
    requires Valid(inp, s) && 0 < |s.heap| && s.heap[0].OMap? && |s.heap[0].entries| <= inp.limits.maxItems
    requires ReadKeyAndValue(inp, s) == Ok((key, v), s1) && s1.heap == s.heap
    requires Valid(inp, s1) && ValidVal(s1.heap, key)
    ensures match KeyText(inp, s1.heap, key)
            case Some(text) => ReadPair(inp, s, 0) == Ok((), s1.(heap := PutEntry(s1.heap, 0, text, v)))
            case None => ReadPair(inp, s, 0).Diverge?
  {
    hide ReadKeyAndValue, Valid, KeyText, Grew, Unfold;
  }

  lemma {:induction false} NilText(inp: Input, h: Heap)
    requires ValidHeap(h)
    ensures KeyText(inp, h, GNil) == Some(inp.sprint(TLeaf(GNil)))
  {
    UnfoldLeaf(h, GNil, |h|);
  }

  lemma {:induction false} FirstRead(inp: Input)
    requires SelfKeyed(inp)
    ensures Valid(inp, Opened(1)) && ReadKeyAndValue(inp, Opened(1)) == Ok((GNil, GMap(0)), Opened(4))
  {
    StatesValid(inp, 1);
    StatesValid(inp, 2);
    hide ReadValue, Valid, ReadKeyAndValue;
    NilRead(inp, Opened(1));
    RefRead(inp, Opened(2), 0);
    KeyAndValueRead(inp, Opened(1), GNil, Opened(2), GMap(0), Opened(4));
  }

  lemma {:induction false} FirstPair(inp: Input)
    requires SelfKeyed(inp)
    ensures Valid(inp, Opened(1)) && ReadPair(inp, Opened(1), 0) == Ok((), Tied(inp, 4))
  {
    FirstRead(inp);
    StatesValid(inp, 4);
    assert inp.limits.maxItems >= 0;
    hide Valid, ReadKeyAndValue, KeyText, ReadPair, SelfKeyed;
    assert ValidHeap(Opened(4).heap);
    NilText(inp, Opened(4).heap);
    PairStored(inp, Opened(1), GNil, GMap(0), Opened(4));
    assert PutEntry(Opened(4).heap, 0, inp.sprint(TLeaf(GNil)), GMap(0)) == Tied(inp, 4).heap;
  }

  lemma {:induction false} SecondPair(inp: Input)
    requires SelfKeyed(inp)
    ensures Valid(inp, Tied(inp, 4)) && ReadPair(inp, Tied(inp, 4), 0).Diverge?
  {
    StatesValid(inp, 4);
    StatesValid(inp, 6);
    StatesValid(inp, 7);
    hide ReadValue, Valid, ReadKeyAndValue, KeyText, ReadPair;
    RefRead(inp, Tied(inp, 4), 0);
    NilRead(inp, Tied(inp, 6));
    KeyAndValueRead(inp, Tied(inp, 4), GMap(0), Tied(inp, 6), GNil, Tied(inp, 7));
    TiedNeverRendered(inp);
    PairStored(inp, Tied(inp, 4), GMap(0), GNil, Tied(inp, 7));
  }

  lemma {:induction false} TiedNeverRendered(inp: Input)
    requires SelfKeyed(inp)
    ensures ValidHeap(Tied(inp, 7).heap) && KeyText(inp, Tied(inp, 7).heap, GMap(0)) == None
  {
    var h, text := Tied(inp, 7).heap, inp.sprint(TLeaf(GNil));
    assert h[0].entries[text] == GMap(0) && ValidHeap(h) && Unfold(h, GMap(0), 0) == None;
  }

  lemma {:induction false} EntriesStep(inp: Input, s: DState, count: nat)
    requires Valid(inp, s) && 0 < |s.heap| && s.heap[0].OMap? && |s.heap[0].entries| <= count < inp.limits.maxItems
    requires s.offset < |inp.data| && inp.data[s.offset] != 'z' as int
    ensures ReadPair(inp, s, 0).Diverge? ==> ReadEntries(inp, s, 0, count).Diverge?
    ensures ReadPair(inp, s, 0).Ok? ==>
              ReadEntries(inp, s, 0, count) == ReadEntries(inp, ReadPair(inp, s, 0).st, 0, count + 1)
  {
    hide ReadPair, Valid;
  }

  lemma {:induction false} SelfKeyedEntries(inp: Input)
    requires SelfKeyed(inp)
    ensures Valid(inp, Opened(1)) && ReadEntries(inp, Opened(1), 0, 0).Diverge?
  {
    FirstPair(inp);
    SecondPair(inp);
    hide ReadPair, Valid, ReadEntries, SafeFilling;
    EntriesStep(inp, Tied(inp, 4), 1);
    EntriesStep(inp, Opened(1), 0);
  }

  lemma {:induction false} MapStep(inp: Input, s: DState, s1: DState)
    requires Valid(inp, s) && ReadType(inp, s) == Ok([], s) && OpenMap(inp, s, []) == Ok(GMap(|s.heap|), s1)
    requires Valid(inp, s1) && |s.heap| < |s1.heap| && s1.heap[|s.heap|] == OMap(map[]) && inp.limits.maxItems >= 0
    requires ReadEntries(inp, s1, |s.heap|, 0).Diverge?
    ensures ReadMap(inp, s).Diverge?
  {
    hide Valid, ReadType, OpenMap, ReadEntries, Grew;
  }

  lemma {:induction false} SelfKeyedOpens(inp: Input, s: DState)
    requires SelfKeyed(inp) && s == DState(1, 1, [], [], [], [])
    ensures Valid(inp, s) && ReadType(inp, s) == Ok([], s) && OpenMap(inp, s, []) == Ok(GMap(0), Opened(1))
  {
    StatesValid(inp, 1);
    hide Valid;
    assert !Peeks(inp, s, 't' as int) && !Peeks(inp, s, 'T' as int) && !Peeks(inp, s, 0x75);
  }

  lemma {:induction false} SelfKeyedMap(inp: Input, s: DState)
    requires SelfKeyed(inp) && s == DState(1, 1, [], [], [], [])
    ensures Valid(inp, s) && ReadMap(inp, s).Diverge?
  {
    SelfKeyedOpens(inp, s);
    SelfKeyedEntries(inp);
    assert inp.limits.maxItems >= 0;
    hide ReadEntries, Valid, ReadType, OpenMap, ReadMap, SelfKeyed;
    MapStep(inp, s, Opened(1));
  }

  /** A value whose tag introduces something that does not end does not end. */
  lemma {:induction false} EnterStep(inp: Input, s: DState)
    requires Valid(inp, s) && s.offset < |inp.data| && s.depth < inp.limits.maxDepth
    ensures Valid(inp, s.(offset := s.offset + 1, depth := s.depth + 1))
    ensures ReadTagged(inp, s.(offset := s.offset + 1, depth := s.depth + 1), inp.data[s.offset]).Diverge? ==>
              ReadValue(inp, s).Diverge?
  {
    hide ReadTagged;
  }

  lemma {:induction false} SelfKeyedEnter(inp: Input, s: DState)
    requires SelfKeyed(inp) && s == DState(1, 1, [], [], [], [])
    ensures Valid(inp, s) && Valid(inp, FRESH)
    ensures ReadTagged(inp, s, 'M' as int).Diverge? ==> ReadValue(inp, FRESH).Diverge?
  {
    StatesValid(inp, 1);
    hide ReadValue, ReadTagged, Valid;
    EnterStep(inp, FRESH);
  }

  /** A new decoder never comes back from these eight bytes, whatever its limits are beyond
      two levels and two entries. */
  lemma {:induction false} SelfKeyedNeverEnds(inp: Input)
    requires SelfKeyed(inp)
    ensures Valid(inp, FRESH) && ReadValue(inp, FRESH).Diverge?
  {
    hide *;
    var s := DState(1, 1, [], [], [], []);
    SelfKeyedEnter(inp, s);
    SelfKeyedMap(inp, s);
    MapTagged(inp, s);
  }

  // ------------------------------------------------------------------
  // Without references every read ends

  predicate RefTag(b: byte) {
    b == 'R' as int || b == 0x4a || b == 0x4b
  }

  /** No byte from the offset on could introduce a reference. */
  ghost predicate NoRefs(inp: Input, offset: nat) {
    forall i | offset <= i < |inp.data| :: !RefTag(inp.data[i])
  }

  /** The value has a finite tree, built from objects made after the first lo of them. */
  ghost predicate Fresh(h: Heap, lo: nat, v: GoVal) {
    exists t :: Rep(h, lo, |h|, v, t)
  }

  ghost predicate AllFresh(h: Heap, lo: nat, vs: seq<GoVal>) {
    forall i | 0 <= i < |vs| :: Fresh(h, lo, vs[i])
  }

  /** What the map at address a holds so far is. */
  ghost predicate FilledFresh(h: Heap, a: nat, lo: nat) {
    a < lo <= |h| && h[a].OMap? && forall k | k in h[a].entries :: Fresh(h, lo, h[a].entries[k])
  }

  /** A read of a value that ends, and gives a finite one. */
  ghost predicate Gives(s: DState, r: R<GoVal>) {
    !r.Diverge? && (r.Ok? ==> Fresh(r.st.heap, |s.heap|, r.v))
  }

  lemma {:induction false} FreshOn(h: Heap, lo: nat, v: GoVal, h': Heap, lo': nat)
    requires Fresh(h, lo, v) && lo' <= lo && |h| <= |h'| && forall i | lo <= i < |h| :: h'[i] == h[i]
    ensures Fresh(h', lo', v)
  {
    var t :| Rep(h, lo, |h|, v, t);
    RepFrame(h, h', lo, |h|, lo', |h'|, v, t);
  }

  lemma {:induction false} AllFreshOn(h: Heap, lo: nat, vs: seq<GoVal>, h': Heap, lo': nat)
    requires AllFresh(h, lo, vs) && lo' <= lo && h <= h'
    ensures AllFresh(h', lo', vs)
  {
    hide Fresh;
    forall i | 0 <= i < |vs| ensures Fresh(h', lo', vs[i]) {
      FreshOn(h, lo, vs[i], h', lo');
    }
  }

  lemma {:induction false} LeafFresh(h: Heap, lo: nat, v: GoVal)
    requires !IsContainer(v)
    ensures Fresh(h, lo, v)
  {
    assert Rep(h, lo, |h|, v, TLeaf(v));
  }

  /** A finite key is rendered. */
  lemma {:induction false} FreshRendered(inp: Input, h: Heap, lo: nat, key: GoVal)
    requires ValidHeap(h) && ValidVal(h, key) && Fresh(h, lo, key)
    ensures KeyText(inp, h, key).Some?
  {
    FreshOn(h, lo, key, h, 0);
    UnfoldFindsTree(h, key);
  }

  lemma {:induction false} SliceFresh(h: Heap, lo: nat, a: nat)
    requires lo <= a < |h| && h[a].OSlice? && AllFresh(h, lo, h[a].items)
    ensures Fresh(h, lo, GSlice(a))
  {
    var items := h[a].items;
    var ts: seq<Tree> := [];
    while |ts| < |items|
      invariant |ts| <= |items| && forall i | 0 <= i < |ts| :: Rep(h, lo, |h|, items[i], ts[i])
    {
      assert Fresh(h, lo, items[|ts|]);
      var t :| Rep(h, lo, |h|, items[|ts|], t);
      ts := ts + [t];
    }
    assert Rep(h, lo, |h|, GSlice(a), TSlice(ts));
  }

  lemma {:induction false} MapFresh(h: Heap, lo: nat, a: nat)
    requires lo <= a < |h| && h[a].OMap? && forall k | k in h[a].entries :: Fresh(h, lo, h[a].entries[k])
    ensures Fresh(h, lo, GMap(a))
  {
    var m := h[a].entries;
    var ts: map<GoString, Tree> := map[];
    var left := m.Keys;
    while left != {}
      invariant left <= m.Keys && ts.Keys == m.Keys - left
      invariant forall k | k in ts :: Rep(h, lo, |h|, m[k], ts[k])
      decreases |left|
    {
      var k :| k in left;
      assert Fresh(h, lo, m[k]);
      var t :| Rep(h, lo, |h|, m[k], t);
      ts, left := ts[k := t], left - {k};
    }
    assert Rep(h, lo, |h|, GMap(a), TMap(ts));
  }

  /** Every value that is read without references is finite; reading it ends. */
  lemma {:induction false} ValueFresh(inp: Input, s: DState)
    requires Valid(inp, s) && NoRefs(inp, s.offset)
    ensures Gives(s, ReadValue(inp, s))
    decreases Remaining(inp, s), 0
  {
    hide ReadTagged, Fresh, Valid;
    if s.depth + 1 <= inp.limits.maxDepth && s.offset < |inp.data| {
      EnteredValid(inp, s);
      var s1 := s.(depth := s.depth + 1, offset := s.offset + 1);
      assert !RefTag(inp.data[s.offset]);
      TaggedFresh(inp, s1, inp.data[s.offset]);
    }
  }

  lemma {:induction false} EnteredValid(inp: Input, s: DState)
    requires Valid(inp, s) && s.depth + 1 <= inp.limits.maxDepth && s.offset < |inp.data|
    ensures Valid(inp, s.(depth := s.depth + 1, offset := s.offset + 1))
    ensures Valid(inp, s.(depth := s.depth + 1))
  {
  }

  lemma {:induction false} TaggedFresh(inp: Input, s: DState, tag: byte)
    requires Valid(inp, s) && NoRefs(inp, s.offset) && !RefTag(tag)
    ensures Gives(s, ReadTagged(inp, s, tag))
    decreases Remaining(inp, s), 9
  {
    hide ReadStringWithTag, ReadBlob, ReadList, ReadFixedTypedList, ReadMap, ReadObjectDefinition, ReadValue, ReadObjectInstance;
    hide ReadNumber, ReadInt32, ReadByte, ReadUint16, ReadRef, Valid, Fresh, Grew;
    var r := ReadTagged(inp, s, tag);
    if tag == 'V' as int {
      ListFresh(inp, s);
    } else if tag == 'v' as int {
      FixedListFresh(inp, s);
    } else if tag == 'M' as int {
      MapRead(inp, s);
    } else if tag == 'O' as int {
      DefinitionEnds(inp, s);
      var d := ReadObjectDefinition(inp, s);
      if d.Ok? {
        ValueFresh(inp, d.st);
        if ReadValue(inp, d.st).Ok? { HeapGrew(d.st, ReadValue(inp, d.st).st); }
        LowerGives(s, d.st, ReadValue(inp, d.st));
      }
    } else if tag == 'o' as int {
      InstanceRead(inp, s);
    } else if r.Ok? {
      LeafFresh(r.st.heap, |s.heap|, r.v);
    }
  }

  lemma {:induction false} LowerGives(s: DState, s1: DState, r: R<GoVal>)
    requires Grew(s, s1) && Gives(s1, r) && (r.Ok? ==> s1.heap <= r.st.heap)
    ensures Gives(s, r)
  {
    hide Fresh;
    if r.Ok? { FreshOn(r.st.heap, |s1.heap|, r.v, r.st.heap, |s.heap|); }
  }

  lemma {:induction false} IntEnds(inp: Input, s: DState)
    requires Valid(inp, s) && NoRefs(inp, s.offset)
    ensures !ReadIntValue(inp, s).Diverge?
    decreases Remaining(inp, s), 1
  {
    hide ReadValue, Valid, Fresh;
    ValueFresh(inp, s);
  }

  lemma {:induction false} TypeEnds(inp: Input, s: DState)
    requires Valid(inp, s) && NoRefs(inp, s.offset)
    ensures !ReadType(inp, s).Diverge?
    decreases Remaining(inp, s), 2
  {
    hide ReadIntValue, ReadUint16, ReadRunes, AddType, Fresh;
    if Peeks(inp, s, 'T' as int) || Peeks(inp, s, 0x75) {
      IntEnds(inp, s.(offset := s.offset + 1));
    }
  }

  lemma {:induction false} DefinitionEnds(inp: Input, s: DState)
    requires Valid(inp, s) && NoRefs(inp, s.offset)
    ensures !ReadObjectDefinition(inp, s).Diverge?
    decreases Remaining(inp, s), 5
  {
    hide ReadIntValue, ReadRunes, ReadNames, AddClassDef, Valid, Fresh, Grew;
    IntEnds(inp, s);
    var l := ReadLenString(inp, s);
    if l.Ok? {
      IntEnds(inp, l.st);
    }
  }

  lemma {:induction false} ItemsFresh(inp: Input, s: DState, n: nat, acc: seq<GoVal>, lo: nat)
    requires Valid(inp, s) && |acc| + n <= inp.limits.maxItems && ValidVals(s.heap, acc) && NoRefs(inp, s.offset)
    requires lo <= |s.heap| && AllFresh(s.heap, lo, acc)
    ensures var r := ReadItems(inp, s, n, acc); !r.Diverge? && (r.Ok? ==> AllFresh(r.st.heap, lo, r.v))
    decreases Remaining(inp, s), 3, n
  {
    hide ReadValue, Valid, Fresh;
    if n > 0 {
      ValueFresh(inp, s);
      var r := ReadValue(inp, s);
      if r.Ok? {
        ValidValsGrow(s.heap, r.st.heap, acc);
        OneMoreFresh(s, r, acc, lo);
        ItemsFresh(inp, r.st, n - 1, acc + [r.v], lo);
      }
    }
  }

  lemma {:induction false} OneMoreFresh(s: DState, r: R<GoVal>, acc: seq<GoVal>, lo: nat)
    requires r.Ok? && Gives(s, r) && s.heap <= r.st.heap && lo <= |s.heap| && AllFresh(s.heap, lo, acc)
    ensures AllFresh(r.st.heap, lo, acc + [r.v])
  {
    hide Fresh;
    AllFreshOn(s.heap, lo, acc, r.st.heap, lo);
    FreshOn(r.st.heap, |s.heap|, r.v, r.st.heap, lo);
  }

  lemma {:induction false} ItemsToEndFresh(inp: Input, s: DState, acc: seq<GoVal>, lo: nat)
    requires Valid(inp, s) && |acc| <= inp.limits.maxItems && ValidVals(s.heap, acc) && NoRefs(inp, s.offset)
    requires lo <= |s.heap| && AllFresh(s.heap, lo, acc)
    ensures var r := ReadItemsToEnd(inp, s, acc); !r.Diverge? && (r.Ok? ==> AllFresh(r.st.heap, lo, r.v))
    decreases Remaining(inp, s), 3
  {
    hide ReadValue, Valid, Fresh;
    if s.offset < |inp.data| && !Peeks(inp, s, 'z' as int) {
      ValueFresh(inp, s);
      var r := ReadValue(inp, s);
      if r.Ok? {
        ValidValsGrow(s.heap, r.st.heap, acc);
        OneMoreFresh(s, r, acc, lo);
        if CollectionFits(inp, |acc| + 1) {
          ItemsToEndFresh(inp, r.st, acc + [r.v], lo);
        }
      }
    }
  }

  lemma {:induction false} ListBodyFresh(inp: Input, s: DState, n: int, lo: nat)
    requires Valid(inp, s) && NoRefs(inp, s.offset) && lo <= |s.heap|
    ensures var r := ReadListBody(inp, s, n); !r.Diverge? && (r.Ok? ==> AllFresh(r.st.heap, lo, r.v))
    decreases Remaining(inp, s), 4
  {
    assert inp.limits.maxItems > 0;
    hide ReadItems, ReadItemsToEnd, Valid, Fresh;
    if n < 0 {
      ItemsToEndFresh(inp, s, [], lo);
    } else if CollectionFits(inp, n) {
      ItemsFresh(inp, s, n, [], lo);
    }
  }

  lemma {:induction false} FinishFresh(inp: Input, s: DState, typeName: GoString, items: seq<GoVal>, typed: bool, lo: nat)
    requires Valid(inp, s) && |items| <= inp.limits.maxItems && ValidVals(s.heap, items)
    requires lo <= |s.heap| && AllFresh(s.heap, lo, items)
    ensures var r := FinishList(inp, s, typeName, items, typed); r.Ok? ==> Fresh(r.st.heap, lo, r.v)
  {
    hide Valid, Fresh;
    var r := FinishList(inp, s, typeName, items, typed);
    if r.Ok? {
      var h, a := r.st.heap, |s.heap|;
      AllFreshOn(s.heap, lo, items, h, lo);
      SliceFresh(h, lo, a);
      if typed {
        LeafFresh(h, lo, GString(typeName));
        MapFresh(h, lo, a + 1);
      }
    }
  }

  lemma {:induction false} ListFresh(inp: Input, s: DState)
    requires Valid(inp, s) && NoRefs(inp, s.offset)
    ensures Gives(s, ReadList(inp, s))
    decreases Remaining(inp, s), 5
  {
    hide Valid, Fresh, Grew, ReadType, ReadLength, ReadListBody, FinishList;
    GrewTransitive();
    TypeEnds(inp, s);
    var t := ReadType(inp, s);
    if t.Ok? {
      var n := ReadLength(inp, t.st);
      if n.Ok? {
        assert Grew(s, n.st);
        HeapGrew(s, n.st);
        ListBodyFresh(inp, n.st, n.v, |s.heap|);
        var items := ReadListBody(inp, n.st, n.v);
        if items.Ok? {
          HeapGrew(s, items.st);
          FinishFresh(inp, items.st, t.v, items.v, t.v != [], |s.heap|);
        }
      }
    }
  }

  lemma {:induction false} HeapGrew(s: DState, s': DState)
    requires Grew(s, s')
    ensures s.heap <= s'.heap && |s.heap| <= |s'.heap| && |s.types| <= |s'.types|
  {
  }

  lemma {:induction false} FixedListFresh(inp: Input, s: DState)
    requires Valid(inp, s) && NoRefs(inp, s.offset)
    ensures Gives(s, ReadFixedTypedList(inp, s))
    decreases Remaining(inp, s), 5
  {
    hide Valid, Fresh, Grew, ReadIntValue, ReadItems, FinishList;
    GrewTransitive();
    IntEnds(inp, s);
    var ref := ReadIntValue(inp, s);
    if ref.Ok? && 0 <= ref.v < |ref.st.types| {
      IntEnds(inp, ref.st);
      var n := ReadIntValue(inp, ref.st);
      if n.Ok? && CollectionFits(inp, n.v) {
        assert Grew(s, n.st);
        HeapGrew(s, n.st);
        ItemsFresh(inp, n.st, n.v, [], |s.heap|);
        var items := ReadItems(inp, n.st, n.v, []);
        if items.Ok? {
          HeapGrew(s, items.st);
          HeapGrew(ref.st, n.st);
          HeapGrew(n.st, items.st);
          FinishFresh(inp, items.st, items.st.types[ref.v], items.v, true, |s.heap|);
        }
      }
    }
  }

  // ------------------------------------------------------------------
  // Maps and objects, filled after they are registered

  lemma {:induction false} KeyAndValueFresh(inp: Input, s: DState)
    requires Valid(inp, s) && NoRefs(inp, s.offset)
    ensures var r := ReadKeyAndValue(inp, s);
            !r.Diverge? && (r.Ok? ==> Fresh(r.st.heap, |s.heap|, r.v.0) && Fresh(r.st.heap, |s.heap|, r.v.1))
    decreases Remaining(inp, s), 2
  {
    hide ReadValue, Valid, Fresh, Grew;
    ValueFresh(inp, s);
    var k := ReadValue(inp, s);
    if k.Ok? {
      HeapGrew(s, k.st);
      ValueFresh(inp, k.st);
      var v := ReadValue(inp, k.st);
      if v.Ok? {
        HeapGrew(k.st, v.st);
        FreshOn(k.st.heap, |s.heap|, k.v, v.st.heap, |s.heap|);
        FreshOn(v.st.heap, |k.st.heap|, v.v, v.st.heap, |s.heap|);
      }
    }
  }

  /** What was filled in stays finite while more is read. */
  lemma {:induction false} FilledGrows(h: Heap, h': Heap, a: nat, lo: nat)
    requires FilledFresh(h, a, lo) && h <= h'
    ensures FilledFresh(h', a, lo) && h'[a] == h[a]
  {
    hide Fresh;
    forall k | k in h[a].entries ensures Fresh(h', lo, h[a].entries[k]) {
      FreshOn(h, lo, h[a].entries[k], h', lo);
    }
  }

  lemma {:induction false} FilledPut(h: Heap, a: nat, lo: nat, key: GoString, v: GoVal)
    requires FilledFresh(h, a, lo) && Fresh(h, lo, v)
    ensures FilledFresh(PutEntry(h, a, key, v), a, lo)
  {
    hide Fresh;
    var h' := PutEntry(h, a, key, v);
    forall k | k in h'[a].entries ensures Fresh(h', lo, h'[a].entries[k]) {
      FreshOn(h, lo, h'[a].entries[k], h', lo);
    }
  }

  lemma {:induction false} PairFresh(inp: Input, s: DState, a: nat, lo: nat)
    requires Valid(inp, s) && a < |s.heap| && s.heap[a].OMap? && |s.heap[a].entries| <= inp.limits.maxItems
    requires NoRefs(inp, s.offset) && FilledFresh(s.heap, a, lo)
    ensures var r := ReadPair(inp, s, a); !r.Diverge? && (r.Ok? ==> FilledFresh(r.st.heap, a, lo))
    decreases Remaining(inp, s), 3
  {
    hide ReadKeyAndValue, Valid, Fresh, Grew, KeyText, FilledFresh;
    KeyAndValueFresh(inp, s);
    var r := ReadKeyAndValue(inp, s);
    if r.Ok? {
      HeapGrew(s, r.st);
      var h := r.st.heap;
      FilledInside(s.heap, a, lo);
      FilledGrows(s.heap, h, a, lo);
      ValidParts(inp, r.st);
      FreshRendered(inp, h, |s.heap|, r.v.0);
      FreshOn(h, |s.heap|, r.v.1, h, lo);
      FilledPut(h, a, lo, KeyText(inp, h, r.v.0).value, r.v.1);
    }
  }

  lemma {:induction false} FilledInside(h: Heap, a: nat, lo: nat)
    requires FilledFresh(h, a, lo)
    ensures a < lo <= |h| && h[a].OMap?
  {
  }

  lemma {:induction false} ValidParts(inp: Input, s: DState)
    requires Valid(inp, s)
    ensures ValidHeap(s.heap) && inp.limits.maxItems > 0
  {
  }

  lemma {:induction false} EntriesFresh(inp: Input, s: DState, a: nat, count: nat, lo: nat)
    requires Valid(inp, s) && a < |s.heap| && s.heap[a].OMap? && |s.heap[a].entries| <= count <= inp.limits.maxItems
    requires NoRefs(inp, s.offset) && FilledFresh(s.heap, a, lo)
    ensures var r := ReadEntries(inp, s, a, count); !r.Diverge? && (r.Ok? ==> FilledFresh(r.st.heap, a, lo))
    decreases Remaining(inp, s), 4
  {
    hide ReadPair, Valid, Fresh, FilledFresh;
    if s.offset < |inp.data| && !Peeks(inp, s, 'z' as int) {
      PairFresh(inp, s, a, lo);
      var r := ReadPair(inp, s, a);
      if r.Ok? && CollectionFits(inp, count + 1) {
        EntriesFresh(inp, r.st, a, count + 1, lo);
      }
    }
  }

  lemma {:induction false} FieldsFresh(inp: Input, s: DState, a: nat, names: seq<GoString>, lo: nat)
    requires Valid(inp, s) && a < |s.heap| && s.heap[a].OMap? && |s.heap[a].entries| + |names| <= inp.limits.maxItems
    requires NoRefs(inp, s.offset) && FilledFresh(s.heap, a, lo)
    ensures var r := ReadFields(inp, s, a, names); !r.Diverge? && (r.Ok? ==> FilledFresh(r.st.heap, a, lo))
    decreases Remaining(inp, s), 4, |names|
  {
    hide ReadValue, Valid, Fresh, FilledFresh, Grew;
    if names != [] {
      ValueFresh(inp, s);
      var r := ReadValue(inp, s);
      if r.Ok? {
        HeapGrew(s, r.st);
        FilledInside(s.heap, a, lo);
        FilledGrows(s.heap, r.st.heap, a, lo);
        FreshOn(r.st.heap, |s.heap|, r.v, r.st.heap, lo);
        FilledPut(r.st.heap, a, lo, names[0], r.v);
        PutValid(inp, r.st, a, names[0], r.v);
        PutSize(r.st.heap, a, names[0], r.v);
        FieldsFresh(inp, r.st.(heap := PutEntry(r.st.heap, a, names[0], r.v)), a, names[1..], lo);
      }
    }
  }

  lemma {:induction false} FilledIsFresh(h: Heap, a: nat, lo: nat, lo': nat)
    requires FilledFresh(h, a, lo) && lo' <= a
    ensures Fresh(h, lo', GMap(a))
  {
    hide Fresh;
    forall k | k in h[a].entries ensures Fresh(h, lo', h[a].entries[k]) {
      FreshOn(h, lo, h[a].entries[k], h, lo');
    }
    MapFresh(h, lo', a);
  }

  lemma {:induction false} MapRead(inp: Input, s: DState)
    requires Valid(inp, s) && NoRefs(inp, s.offset)
    ensures Gives(s, ReadMap(inp, s))
    decreases Remaining(inp, s), 5
  {
    hide Valid, Fresh, Grew, ReadType, OpenMap, ReadEntries, FilledFresh;
    GrewTransitive();
    TypeEnds(inp, s);
    var t := ReadType(inp, s);
    if t.Ok? {
      ValidParts(inp, t.st);
      HeapGrew(s, t.st);
      var out := OpenMap(inp, t.st, t.v);
      if out.Ok? {
        var a := |t.st.heap|;
        MapOpened(inp, t.st, t.v);
        EntriesFresh(inp, out.st, a, 0, |out.st.heap|);
        var r := ReadEntries(inp, out.st, a, 0);
        if r.Ok? {
          WrapperKept(inp, out.st, a, r);
          FilledIsFresh(r.st.heap, a, |out.st.heap|, |s.heap|);
          if t.v != [] {
            LeafFresh(r.st.heap, |s.heap|, GString(t.v));
            MapFresh(r.st.heap, |s.heap|, a + 1);
          }
        }
      }
    }
  }

  lemma {:induction false} MapOpened(inp: Input, s: DState, typeName: GoString)
    requires Valid(inp, s) && OpenMap(inp, s, typeName).Ok?
    ensures var r := OpenMap(inp, s, typeName);
            && r.st.offset == s.offset && FilledFresh(r.st.heap, |s.heap|, |r.st.heap|)
            && |r.st.heap| == |s.heap| + (if typeName == [] then 1 else 2)
            && r.st.heap[|s.heap|] == OMap(map[])
            && r.v == GMap(|r.st.heap| - 1)
            && (typeName != [] ==> r.st.heap[|s.heap| + 1] == OMap(TypedEntries(typeName, Ascii("entries"), GMap(|s.heap|))))
  {
    hide Valid, Fresh;
  }

  lemma {:induction false} WrapperKept(inp: Input, s: DState, a: nat, r: R<()>)
    requires SafeFilling(inp, s, a, r) && r.Ok?
    ensures |s.heap| <= |r.st.heap| && forall i | a < i < |s.heap| :: r.st.heap[i] == s.heap[i]
  {
  }

  lemma {:induction false} InstanceRead(inp: Input, s: DState)
    requires Valid(inp, s) && NoRefs(inp, s.offset)
    ensures Gives(s, ReadObjectInstance(inp, s))
    decreases Remaining(inp, s), 5
  {
    hide Valid, Fresh, Grew, ReadIntValue, OpenObject, ReadFields, FilledFresh;
    GrewTransitive();
    IntEnds(inp, s);
    var ref := ReadIntValue(inp, s);
    if ref.Ok? && 0 <= ref.v < |ref.st.classDefs| {
      HeapGrew(s, ref.st);
      var def := ref.st.classDefs[ref.v];
      DefinitionSmall(inp, ref.st, ref.v);
      var out := OpenObject(inp, ref.st, def);
      if out.Ok? {
        var a := |ref.st.heap|;
        ObjectOpened(inp, ref.st, def);
        FieldsFresh(inp, out.st, a, def.fieldNames, |out.st.heap|);
        var r := ReadFields(inp, out.st, a, def.fieldNames);
        if r.Ok? {
          WrapperKept(inp, out.st, a, r);
          FilledIsFresh(r.st.heap, a, |out.st.heap|, |s.heap|);
          LeafFresh(r.st.heap, |s.heap|, GString(def.typeName));
          LeafFresh(r.st.heap, |s.heap|, GStrings(def.fieldNames));
          MapFresh(r.st.heap, |s.heap|, a + 1);
        }
      }
    }
  }

  lemma {:induction false} DefinitionSmall(inp: Input, s: DState, i: nat)
    requires Valid(inp, s) && i < |s.classDefs|
    ensures |s.classDefs[i].fieldNames| <= inp.limits.maxItems
  {
  }

  lemma {:induction false} ObjectOpened(inp: Input, s: DState, def: ClassDef)
    requires Valid(inp, s) && OpenObject(inp, s, def).Ok?
    ensures var r := OpenObject(inp, s, def);
            && r.st.offset == s.offset && FilledFresh(r.st.heap, |s.heap|, |r.st.heap|)
            && |r.st.heap| == |s.heap| + 2 && r.st.heap[|s.heap|] == OMap(map[])
            && r.v == GMap(|s.heap| + 1) && r.st.heap[|s.heap| + 1] == OMap(ObjectEntries(def, |s.heap|))
  {
    hide Valid, Fresh;
  }
}

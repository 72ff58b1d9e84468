/** What the decoder's lists and maps hold: the values that reading one after the other gives. */
module ContainerAnswers {
  import opened Bytes
  import opened Options
  import opened GoValues
  import opened HessianDecoding
  import opened HessianRoundTrip
  import opened DecoderAnswers

  // ------------------------------------------------------------------
  // Types and lengths

  /** A type is written out, named by its number, or left out. */
  lemma {:induction false} TypeAnswer(inp: Input, s: DState)
    requires Valid(inp, s) && ReadType(inp, s).Ok?
    ensures var r := ReadType(inp, s);
            if Peeks(inp, s, 't' as int) then
              && At(inp, s.offset + 1, Be16(RuneCount(r.v)) + r.v)
              && r.st == s.(offset := s.offset + 3 + |r.v|, types := s.types + [r.v])
            else if Peeks(inp, s, 'T' as int) || Peeks(inp, s, 0x75) then
              && Valid(inp, s.(offset := s.offset + 1))
              && var n := ReadValue(inp, s.(offset := s.offset + 1));
                 n.Ok? && r.st == n.st && n.v.GInt? && 0 <= n.v.n < |n.st.types| && r.v == n.st.types[n.v.n]
            else r == R.Ok([], s)
  {
    hide ReadValue, ReadRunes, ReadUint16, RuneCount, Be16, SkipRunes, ValidHeap;
    if Peeks(inp, s, 't' as int) {
      var s1 := s.(offset := s.offset + 1);
      var n := ReadUint16(inp, s1);
      Uint16Exactly(inp, s1, n.v);
      RunesAnswer(inp, n.st, n.v);
      AtJoined(inp, s1.offset, Be16(n.v), ReadRunes(inp, n.st, n.v).v);
    }
  }

  /** A length is one byte, four bytes, or left out. */
  lemma {:induction false} LengthAnswer(inp: Input, s: DState)
    requires Valid(inp, s) && ReadLength(inp, s).Ok?
    ensures var r := ReadLength(inp, s);
            if Peeks(inp, s, 0x6e) then
              s.offset + 1 < |inp.data| && r == R.Ok(inp.data[s.offset + 1], s.(offset := s.offset + 2))
            else if Peeks(inp, s, 'l' as int) then
              -TWO_31 <= r.v < TWO_31 && At(inp, s.offset + 1, Be32(r.v)) && r.st == s.(offset := s.offset + 5)
            else r == R.Ok(-1, s)
  {
    hide ReadInt32, Be32, ValidHeap;
    if Peeks(inp, s, 'l' as int) {
      Int32Exactly(inp, s.(offset := s.offset + 1), ReadLength(inp, s).v);
    }
  }

  // ------------------------------------------------------------------
  // Lists

  /** Reading one value after the other from s on gives vs, and ends in s'. */
  ghost predicate ItemsRead(inp: Input, s: DState, vs: seq<GoVal>, s': DState)
    requires Valid(inp, s)
    decreases |vs|
  {
    if vs == [] then s' == s
    else
      var r := ReadValue(inp, s);
      r.Ok? && r.v == vs[0] && ItemsRead(inp, r.st, vs[1..], s')
  }

  lemma {:induction false} ItemsAre(inp: Input, s: DState, n: nat, acc: seq<GoVal>) returns (vs: seq<GoVal>)
    requires Valid(inp, s) && |acc| + n <= inp.limits.maxItems && ValidVals(s.heap, acc) && ReadItems(inp, s, n, acc).Ok?
    ensures var r := ReadItems(inp, s, n, acc); r.v == acc + vs && |vs| == n && ItemsRead(inp, s, vs, r.st)
    decreases n
  {
    hide *;
    vs := [];
    if n == 0 {
      NoItemsRead(inp, s, acc);
      assert acc + vs == acc;
    } else {
      ItemsStep(inp, s, n, acc);
      var r := ReadValue(inp, s);
      var rest := ItemsAre(inp, r.st, n - 1, acc + [r.v]);
      vs := [r.v] + rest;
      FirstItem(inp, s, rest, ReadItems(inp, s, n, acc).st);
      assert acc + [r.v] + rest == acc + vs;
    }
  }

  lemma {:induction false} NoItemsRead(inp: Input, s: DState, acc: seq<GoVal>)
    requires Valid(inp, s) && |acc| <= inp.limits.maxItems && ValidVals(s.heap, acc)
    ensures ReadItems(inp, s, 0, acc) == R.Ok(acc, s) && ItemsRead(inp, s, [], s)
  {
    hide Valid;
  }

  lemma {:induction false} FirstItem(inp: Input, s: DState, rest: seq<GoVal>, end: DState)
    requires Valid(inp, s) && ReadValue(inp, s).Ok? && Valid(inp, ReadValue(inp, s).st) && ItemsRead(inp, ReadValue(inp, s).st, rest, end)
    ensures ItemsRead(inp, s, [ReadValue(inp, s).v] + rest, end)
  {
    hide ReadValue, Valid;
    assert ([ReadValue(inp, s).v] + rest)[1..] == rest;
  }

  lemma {:induction false} ItemsStep(inp: Input, s: DState, n: nat, acc: seq<GoVal>)
    requires Valid(inp, s) && 0 < n && |acc| + n <= inp.limits.maxItems && ValidVals(s.heap, acc) && ReadItems(inp, s, n, acc).Ok?
    ensures ReadValue(inp, s).Ok?
    ensures var r := ReadValue(inp, s);
            && Valid(inp, r.st) && ValidVals(r.st.heap, acc + [r.v])
            && ReadItems(inp, s, n, acc) == ReadItems(inp, r.st, n - 1, acc + [r.v])
  {
    hide ReadValue, ValidHeap;
    ValidValsGrow(s.heap, ReadValue(inp, s).st.heap, acc);
  }

  lemma {:induction false} ItemsToEndAre(inp: Input, s: DState, acc: seq<GoVal>) returns (vs: seq<GoVal>, end: DState)
    requires Valid(inp, s) && |acc| <= inp.limits.maxItems && ValidVals(s.heap, acc) && ReadItemsToEnd(inp, s, acc).Ok?
    ensures var r := ReadItemsToEnd(inp, s, acc);
            && r.v == acc + vs && ItemsRead(inp, s, vs, end) && Peeks(inp, end, 'z' as int) && r.st == end.(offset := end.offset + 1)
    decreases Remaining(inp, s)
  {
    hide *;
    vs, end := [], s;
    if Peeks(inp, s, 'z' as int) {
      NoItemsRead(inp, s, acc);
      EndRead(inp, s, acc);
      assert acc + vs == acc;
    } else {
      ItemsToEndStep(inp, s, acc);
      var r := ReadValue(inp, s);
      var rest;
      rest, end := ItemsToEndAre(inp, r.st, acc + [r.v]);
      vs := [r.v] + rest;
      FirstItem(inp, s, rest, end);
      assert acc + [r.v] + rest == acc + vs;
    }
  }

  lemma {:induction false} EndRead(inp: Input, s: DState, acc: seq<GoVal>)
    requires Valid(inp, s) && |acc| <= inp.limits.maxItems && ValidVals(s.heap, acc) && Peeks(inp, s, 'z' as int)
    ensures ReadItemsToEnd(inp, s, acc) == R.Ok(acc, s.(offset := s.offset + 1))
  {
    hide Valid, ReadValue;
  }

  lemma {:induction false} ItemsToEndStep(inp: Input, s: DState, acc: seq<GoVal>)
    requires Valid(inp, s) && |acc| <= inp.limits.maxItems && ValidVals(s.heap, acc)
    requires ReadItemsToEnd(inp, s, acc).Ok? && !Peeks(inp, s, 'z' as int)
    ensures ReadValue(inp, s).Ok?
    ensures var r := ReadValue(inp, s);
            && Valid(inp, r.st) && |acc + [r.v]| <= inp.limits.maxItems && ValidVals(r.st.heap, acc + [r.v])
            && Remaining(inp, r.st) < Remaining(inp, s)
            && ReadItemsToEnd(inp, s, acc) == ReadItemsToEnd(inp, r.st, acc + [r.v])
  {
    hide ReadValue, ValidHeap;
    ValidValsGrow(s.heap, ReadValue(inp, s).st.heap, acc);
  }

  /** The list is a new slice of the items, inside a new map with its type if it has one. */
  ghost predicate ListHeld(h: Heap, v: GoVal, typeName: GoString, typed: bool, vs: seq<GoVal>) {
    if typed then
      && v.GMap? && 0 < v.addr < |h| && h[v.addr - 1] == OSlice(vs)
      && h[v.addr] == OMap(map[Ascii("type") := GString(typeName), Ascii("items") := GSlice(v.addr - 1)])
    else
      v.GSlice? && v.addr < |h| && h[v.addr] == OSlice(vs)
  }

  lemma {:induction false} FinishedHeld(inp: Input, s: DState, typeName: GoString, items: seq<GoVal>, typed: bool)
    requires Valid(inp, s) && |items| <= inp.limits.maxItems && ValidVals(s.heap, items)
    requires FinishList(inp, s, typeName, items, typed).Ok?
    ensures var r := FinishList(inp, s, typeName, items, typed); ListHeld(r.st.heap, r.v, typeName, typed, items)
  {
    hide Valid, Grew;
  }

  /** What a list that was read holds: as many items as it announced, or those up to its end. */
  lemma {:induction false} ListAnswer(inp: Input, s: DState) returns (vs: seq<GoVal>, end: DState)
    requires Valid(inp, s) && ReadList(inp, s).Ok?
    ensures ReadType(inp, s).Ok? && ReadLength(inp, ReadType(inp, s).st).Ok?
    ensures var n := ReadLength(inp, ReadType(inp, s).st);
            && ItemsRead(inp, n.st, vs, end) && (n.v >= 0 ==> |vs| == n.v) && (n.v < 0 ==> Peeks(inp, end, 'z' as int))
    ensures var t, r := ReadType(inp, s).v, ReadList(inp, s); ListHeld(r.st.heap, r.v, t, t != [], vs)
  {
    hide ReadType, ReadLength, ReadItems, ReadItemsToEnd, FinishList, Valid, Grew;
    var t := ReadType(inp, s);
    var n := ReadLength(inp, t.st);
    var items := ReadListBody(inp, n.st, n.v);
    if n.v < 0 {
      vs, end := ItemsToEndAre(inp, n.st, []);
    } else {
      vs := ItemsAre(inp, n.st, n.v, []);
      end := ReadItems(inp, n.st, n.v, []).st;
    }
    assert [] + vs == vs;
    FinishedHeld(inp, items.st, t.v, items.v, t.v != []);
  }

  /** The same where the type is named by number and the length comes as a value. */
  lemma {:induction false} FixedListAnswer(inp: Input, s: DState) returns (vs: seq<GoVal>, end: DState)
    requires Valid(inp, s) && ReadFixedTypedList(inp, s).Ok?
    ensures ReadIntValue(inp, s).Ok? && ReadIntValue(inp, ReadIntValue(inp, s).st).Ok?
    ensures var t := ReadIntValue(inp, s);
            var n := ReadIntValue(inp, t.st);
            var r := ReadFixedTypedList(inp, s);
            && ItemsRead(inp, n.st, vs, end) && |vs| == n.v && 0 <= t.v < |t.st.types|
            && ListHeld(r.st.heap, r.v, t.st.types[t.v], true, vs)
  {
    hide ReadIntValue, ReadItems, FinishList, Valid;
    var t := ReadIntValue(inp, s);
    var n := ReadIntValue(inp, t.st);
    vs := ItemsAre(inp, n.st, n.v, []);
    end := ReadItems(inp, n.st, n.v, []).st;
    assert [] + vs == vs;
    assert t.st.types <= end.types;
    FinishedHeld(inp, end, end.types[t.v], vs, true);
  }

  // ------------------------------------------------------------------
  // Maps

  /** Entries put one after the other; a later one takes the place of an earlier one. */
  function AllPut(m: map<GoString, GoVal>, es: seq<(GoString, GoVal)>): map<GoString, GoVal>
    decreases |es|
  {
    if es == [] then m else AllPut(m[es[0].0 := es[0].1], es[1..])
  }

  /** Reading keys and values from s on, each key rendered as text in the memory in which its
      value had been read, puts es into the map at address a, and ends in s'. */
  ghost predicate EntriesRead(inp: Input, s: DState, a: nat, es: seq<(GoString, GoVal)>, s': DState)
    requires Valid(inp, s)
    decreases |es|
  {
    if es == [] then s' == s
    else
      var k := ReadValue(inp, s);
      k.Ok? &&
      var v := ReadValue(inp, k.st);
      && v.Ok? && ValidVal(v.st.heap, k.v) && KeyText(inp, v.st.heap, k.v) == Some(es[0].0) && es[0].1 == v.v
      && a < |v.st.heap| && v.st.heap[a].OMap?
      && var next := v.st.(heap := v.st.heap[a := OMap(v.st.heap[a].entries[es[0].0 := v.v])]);
         Valid(inp, next) && EntriesRead(inp, next, a, es[1..], s')
  }

  lemma {:induction false} PairAnswer(inp: Input, s: DState, a: nat) returns (e: (GoString, GoVal))
    requires Valid(inp, s) && a < |s.heap| && s.heap[a].OMap? && |s.heap[a].entries| <= inp.limits.maxItems
    requires ReadPair(inp, s, a).Ok?
    ensures ReadValue(inp, s).Ok? && ReadValue(inp, ReadValue(inp, s).st).Ok?
    ensures var k := ReadValue(inp, s);
            var v := ReadValue(inp, k.st);
            && ValidVal(v.st.heap, k.v) && KeyText(inp, v.st.heap, k.v) == Some(e.0) && e.1 == v.v
            && a < |v.st.heap| && v.st.heap[a] == s.heap[a]
            && ReadPair(inp, s, a) == R.Ok((), v.st.(heap := v.st.heap[a := OMap(v.st.heap[a].entries[e.0 := v.v])]))
  {
    hide ReadValue, ValidHeap, KeyText;
    var k := ReadValue(inp, s);
    var v := ReadValue(inp, k.st);
    e := (KeyText(inp, v.st.heap, k.v).value, v.v);
  }

  lemma {:induction false} EntriesTurn(inp: Input, s: DState, a: nat, count: nat)
    requires Valid(inp, s) && a < |s.heap| && s.heap[a].OMap? && |s.heap[a].entries| <= count <= inp.limits.maxItems
    requires ReadEntries(inp, s, a, count).Ok? && !Peeks(inp, s, 'z' as int)
    ensures ReadPair(inp, s, a).Ok? && count < inp.limits.maxItems
    ensures var s1 := ReadPair(inp, s, a).st;
            && Valid(inp, s1) && a < |s1.heap| && s1.heap[a].OMap? && |s1.heap[a].entries| <= count + 1
            && Remaining(inp, s1) < Remaining(inp, s)
            && ReadEntries(inp, s, a, count) == ReadEntries(inp, s1, a, count + 1)
  {
    hide ReadPair, ValidHeap, Grew;
  }

  /** The entries of a map are those read up to the closing mark. */
  lemma {:induction false} EntriesAnswer(inp: Input, s: DState, a: nat, count: nat) returns (es: seq<(GoString, GoVal)>, end: DState)
    requires Valid(inp, s) && a < |s.heap| && s.heap[a].OMap? && |s.heap[a].entries| <= count <= inp.limits.maxItems
    requires ReadEntries(inp, s, a, count).Ok?
    ensures EntriesRead(inp, s, a, es, end) && Peeks(inp, end, 'z' as int)
    ensures ReadEntries(inp, s, a, count).st == end.(offset := end.offset + 1)
    ensures a < |end.heap| && end.heap[a] == OMap(AllPut(s.heap[a].entries, es))
    decreases Remaining(inp, s)
  {
    hide *;
    es, end := [], s;
    if Peeks(inp, s, 'z' as int) {
      NoEntriesRead(inp, s, a, count);
    } else {
      EntriesTurn(inp, s, a, count);
      var e := PairAnswer(inp, s, a);
      var rest;
      rest, end := EntriesAnswer(inp, ReadPair(inp, s, a).st, a, count + 1);
      es := [e] + rest;
      FirstEntry(inp, s, a, e, rest, end);
    }
  }

  lemma {:induction false} NoEntriesRead(inp: Input, s: DState, a: nat, count: nat)
    requires Valid(inp, s) && a < |s.heap| && s.heap[a].OMap? && |s.heap[a].entries| <= count <= inp.limits.maxItems
    requires Peeks(inp, s, 'z' as int)
    ensures ReadEntries(inp, s, a, count) == R.Ok((), s.(offset := s.offset + 1))
    ensures EntriesRead(inp, s, a, [], s) && AllPut(s.heap[a].entries, []) == s.heap[a].entries
  {
    hide Valid, ReadPair;
  }

  lemma {:induction false} FirstEntry(inp: Input, s: DState, a: nat, e: (GoString, GoVal), rest: seq<(GoString, GoVal)>, end: DState)
    requires Valid(inp, s) && a < |s.heap| && s.heap[a].OMap? && |s.heap[a].entries| <= inp.limits.maxItems
    requires ReadValue(inp, s).Ok? && ReadValue(inp, ReadValue(inp, s).st).Ok?
    requires var k := ReadValue(inp, s);
             var v := ReadValue(inp, k.st);
             && ValidVal(v.st.heap, k.v) && KeyText(inp, v.st.heap, k.v) == Some(e.0) && e.1 == v.v
             && a < |v.st.heap| && v.st.heap[a] == s.heap[a]
             && var next := v.st.(heap := v.st.heap[a := OMap(v.st.heap[a].entries[e.0 := v.v])]);
                Valid(inp, next) && EntriesRead(inp, next, a, rest, end)
    ensures EntriesRead(inp, s, a, [e] + rest, end)
    ensures AllPut(s.heap[a].entries, [e] + rest) == AllPut(s.heap[a].entries[e.0 := e.1], rest)
  {
    hide ReadValue, Valid, KeyText;
    assert ([e] + rest)[1..] == rest;
  }

  /** The new map behind what was there, and its wrapper with its type if it has one; the outer
      one takes the next number. */
  ghost predicate MapOpened(s: DState, typeName: GoString, v: GoVal, s': DState) {
    var a := |s.heap|;
    if typeName == [] then
      v == GMap(a) && s' == s.(heap := s.heap + [OMap(map[])], refs := s.refs + [v])
    else
      && v == GMap(a + 1)
      && s' == s.(heap := s.heap + [OMap(map[]), OMap(map[Ascii("type") := GString(typeName), Ascii("entries") := GMap(a)])],
                  refs := s.refs + [v])
  }

  lemma {:induction false} OpenedIs(inp: Input, s: DState, typeName: GoString)
    requires Valid(inp, s) && OpenMap(inp, s, typeName).Ok?
    ensures var r := OpenMap(inp, s, typeName); MapOpened(s, typeName, r.v, r.st)
  {
    hide Valid, Grew;
    var a := |s.heap|;
    var o := OMap(map[Ascii("type") := GString(typeName), Ascii("entries") := GMap(a)]);
    assert s.heap + [OMap(map[])] + [o] == s.heap + [OMap(map[]), o];
  }

  /** What a map that was read holds: the entries that stand up to its end. */
  lemma {:induction false} MapAnswer(inp: Input, s: DState) returns (first: DState, es: seq<(GoString, GoVal)>, end: DState)
    requires Valid(inp, s) && ReadMap(inp, s).Ok?
    ensures ReadType(inp, s).Ok? && MapOpened(ReadType(inp, s).st, ReadType(inp, s).v, ReadMap(inp, s).v, first)
    ensures Valid(inp, first) && EntriesRead(inp, first, |ReadType(inp, s).st.heap|, es, end) && Peeks(inp, end, 'z' as int)
    ensures ReadMap(inp, s).st == end.(offset := end.offset + 1)
    ensures var a := |ReadType(inp, s).st.heap|; a < |end.heap| && end.heap[a] == OMap(AllPut(map[], es))
  {
    assert inp.limits.maxItems > 0;
    hide ReadType, ReadEntries, OpenMap, Valid, Grew;
    var t := ReadType(inp, s);
    OpenedIs(inp, t.st, t.v);
    first := OpenMap(inp, t.st, t.v).st;
    es, end := EntriesAnswer(inp, first, |t.st.heap|, 0);
  }

  /** A key that is no text is rendered from its finite tree; if it has none, it is not
      rendered at all. */
  lemma {:induction false} KeyRendered(inp: Input, h: Heap, key: GoVal, t: Tree)
    requires ValidHeap(h) && ValidVal(h, key)
    ensures key.GString? ==> KeyText(inp, h, key) == Some(key.s)
    ensures !key.GString? && Rep(h, 0, |h|, key, t) ==> KeyText(inp, h, key) == Some(inp.sprint(t))
    ensures !key.GString? && !HasTree(h, key) ==> KeyText(inp, h, key) == None
  {
    hide Rep, Unfold, ValidHeap;
    UnfoldFindsTree(h, key);
    if Rep(h, 0, |h|, key, t) {
      assert HasTree(h, key);
      RepUnique(h, key, t, Unfold(h, key, |h|).value);
    }
  }
}

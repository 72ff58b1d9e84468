/** What the outcome of reading an answer says, in terms of the object that was read. */
module ResponseMeaning {
  import opened Options
  import opened Bytes
  import opened GoValues
  import opened HessianDecoding
  import opened HessianEncoding
  import opened HessianRoundTrip
  import opened HessianReader
  import opened ScalarForms
  import opened SofaResponse

  // ------------------------------------------------------------------
  // Text of numbers and of rendered values

  /** The number in decimal digits, without zeros in front. */
  ghost predicate NumberText(n: int, s: GoString) {
    var digits := if n < 0 && s != [] then s[1..] else s;
    && (n < 0 ==> s != [] && s[0] == '-' as int)
    && digits != [] && (forall i | 0 <= i < |digits| :: Digit(digits[i]))
    && Number(digits) == (if n < 0 then -n else n) && (digits[0] == '0' as int ==> n == 0 && |digits| == 1)
  }

  lemma {:induction false} DecimalIs(n: int)
    ensures NumberText(n, Decimal(n))
  {
    DigitsSay(if n < 0 then -n else n);
    assert n < 0 ==> Decimal(n)[1..] == Digits(-n);
    hide Digits;
  }

  /** Text as it is, other values as they are rendered from their finite trees. */
  ghost predicate Rendered(inp: Input, h: Heap, v: GoVal, s: GoString) {
    if v.GString? then s == v.s else exists t :: Rep(h, 0, |h|, v, t) && s == inp.sprint(t)
  }

  lemma {:induction false} KeyTextIs(inp: Input, h: Heap, v: GoVal, s: GoString)
    requires ValidHeap(h) && ValidVal(h, v)
    ensures KeyText(inp, h, v) == Some(s) <==> Rendered(inp, h, v, s)
  {
    hide Rep, Unfold, ValidHeap;
    UnfoldFindsTree(h, v);
    forall t, u | Rep(h, 0, |h|, v, t) && Rep(h, 0, |h|, v, u) ensures t == u { RepUnique(h, v, t, u); }
  }

  // ------------------------------------------------------------------
  // Objects

  /** The text under the key; none if there is no text. */
  function TextUnder(m: map<GoString, GoVal>, key: GoString): GoString {
    if key in m && m[key].GString? then m[key].s else []
  }

  /** The map under the key. */
  predicate MapUnder(h: Heap, m: map<GoString, GoVal>, key: GoString, a: nat) {
    key in m && m[key] == GMap(a) && a < |h| && h[a].OMap?
  }

  /** An object that was read: a map with its class under "type" and its fields under "fields". */
  predicate ReadAsObject(h: Heap, v: GoVal, typeName: GoString, a: nat): (b: bool)
    ensures b ==> a < |h| && h[a].OMap?
  {
    && v.GMap? && v.addr < |h| && h[v.addr].OMap?
    && MapUnder(h, h[v.addr].entries, Ascii("fields"), a) && typeName == TextUnder(h[v.addr].entries, Ascii("type"))
  }

  lemma {:induction false} ValidMap(h: Heap, a: nat)
    requires ValidHeap(h) && a < |h| && h[a].OMap?
    ensures forall k | k in h[a].entries :: ValidVal(h, h[a].entries[k])
  {
    assert ValidObj(h, h[a]);
  }

  lemma {:induction false} ObjectIs(h: Heap, v: GoVal, typeName: GoString, a: nat)
    requires ValidHeap(h) && ValidVal(h, v)
    ensures ReadAsObject(h, v, typeName, a) ==>
              IsObject(h, v) && typeName == TypeOf(h, v) && FieldsOf(h, v) == h[a].entries && MapAt(h, v)[Ascii("fields")] == GMap(a)
    ensures IsObject(h, v) ==> MapAt(h, v)[Ascii("fields")].GMap?
                               && ReadAsObject(h, v, TypeOf(h, v), MapAt(h, v)[Ascii("fields")].addr)
  {
    hide Ascii, ValidHeap;
    if v.GMap? { ValidMap(h, v.addr); }
  }

  // ------------------------------------------------------------------
  // Response properties

  /** w is k times the entries of entries of v, and has none of its own. */
  ghost predicate UnwrapsTo(h: Heap, v: GoVal, k: nat, w: GoVal)
    decreases k
  {
    if v.GMap? && v.addr < |h| && h[v.addr].OMap? && exists a: nat :: MapUnder(h, h[v.addr].entries, Ascii("entries"), a) then
      k > 0 && UnwrapsTo(h, h[v.addr].entries[Ascii("entries")], k - 1, w)
    else k == 0 && w == v
  }

  /** The properties are the entries of the innermost map, rendered; a value that is no map is
      one property by itself. */
  ghost predicate PropsOf(inp: Input, h: Heap, w: GoVal, props: map<GoString, GoString>) {
    if w.GNil? then props == map[]
    else if w.GMap? then
      && w.addr < |h| && h[w.addr].OMap? && props.Keys == h[w.addr].entries.Keys
      && forall k | k in props :: Rendered(inp, h, h[w.addr].entries[k], props[k])
    else props.Keys == {Ascii("value")} && Rendered(inp, h, w, props[Ascii("value")])
  }

  ghost predicate PropsRead(inp: Input, h: Heap, v: GoVal, props: map<GoString, GoString>) {
    exists k: nat, w :: UnwrapsTo(h, v, k, w) && PropsOf(inp, h, w, props)
  }

  lemma {:induction false} InnerIs(h: Heap, v: GoVal)
    requires ValidHeap(h) && ValidVal(h, v)
    ensures Inner(h, v).Some? <==> v.GMap? && v.addr < |h| && h[v.addr].OMap? && exists a: nat :: MapUnder(h, h[v.addr].entries, Ascii("entries"), a)
    ensures Inner(h, v).Some? ==> Inner(h, v).value == h[v.addr].entries[Ascii("entries")]
  {
    hide Ascii, ValidHeap;
    if v.GMap? {
      ValidMap(h, v.addr);
      if Inner(h, v).Some? { assert MapUnder(h, h[v.addr].entries, Ascii("entries"), Inner(h, v).value.addr); }
    }
  }

  lemma {:induction false} InnermostIs(h: Heap, v: GoVal, fuel: nat) returns (k: nat)
    requires ValidHeap(h) && ValidVal(h, v) && Innermost(h, v, fuel).Some?
    ensures UnwrapsTo(h, v, k, Innermost(h, v, fuel).value) && EndsAfter(h, v, k)
    decreases fuel
  {
    InnerIs(h, v);
    hide Inner, ValidHeap, MapUnder;
    k := 0;
    if Inner(h, v).Some? {
      var j := InnermostIs(h, Inner(h, v).value, fuel - 1);
      k := j + 1;
    }
  }

  lemma {:induction false} UnwrapsOnce(h: Heap, v: GoVal, k: nat, w: GoVal, j: nat, u: GoVal)
    requires UnwrapsTo(h, v, k, w) && UnwrapsTo(h, v, j, u)
    ensures k == j && w == u
    decreases k
  {
    hide Ascii;
    if k > 0 { UnwrapsOnce(h, h[v.addr].entries[Ascii("entries")], k - 1, w, j - 1, u); }
  }

  lemma {:induction false} UnwrapsEnds(h: Heap, v: GoVal, k: nat, w: GoVal)
    requires ValidHeap(h) && ValidVal(h, v) && UnwrapsTo(h, v, k, w)
    ensures EndsAfter(h, v, k)
    decreases k
  {
    InnerIs(h, v);
    hide Inner, ValidHeap, MapUnder;
    if k > 0 { UnwrapsEnds(h, Inner(h, v).value, k - 1, w); }
  }

  /** The properties come out exactly as they are to be read, and not at all if unwrapping or
      rendering them does not end. */
  lemma {:induction false} TextsRead(inp: Input, h: Heap, v: GoVal, props: map<GoString, GoString>)
    requires ValidHeap(h) && ValidVal(h, v)
    ensures TextsOf(inp, h, v) == Texts(props) <==> PropsRead(inp, h, v, props)
  {
    hide *;
    UnwrappingEnds(h, v);
    if Innermost(h, v, |h|).Some? {
      var w := Innermost(h, v, |h|).value;
      var k := InnermostIs(h, v, |h|);
      forall j: nat, u | UnwrapsTo(h, v, j, u) ensures u == w { UnwrapsOnce(h, v, k, w, j, u); }
      InnermostRead(inp, h, v, w, props);
      OnlyFrom(inp, h, v, k, w, props);
    } else {
      forall j: nat, u ensures !UnwrapsTo(h, v, j, u) {
        if UnwrapsTo(h, v, j, u) {
          UnwrapsEnds(h, v, j, u);
          EndsIn(h, v, j);
        }
      }
      NoTexts(inp, h, v, props);
    }
  }

  lemma {:induction false} OnlyFrom(inp: Input, h: Heap, v: GoVal, k: nat, w: GoVal, props: map<GoString, GoString>)
    requires UnwrapsTo(h, v, k, w) && forall j: nat, u | UnwrapsTo(h, v, j, u) :: u == w
    ensures PropsRead(inp, h, v, props) <==> PropsOf(inp, h, w, props)
  {
    hide UnwrapsTo, PropsOf;
  }

  lemma {:induction false} EndsIn(h: Heap, v: GoVal, k: nat)
    requires ValidHeap(h) && ValidVal(h, v) && EndsAfter(h, v, k)
    ensures Ends(h, v, k)
  {
    hide EndsAfter, ValidHeap;
  }

  lemma {:induction false} NoTexts(inp: Input, h: Heap, v: GoVal, props: map<GoString, GoString>)
    requires ValidHeap(h) && ValidVal(h, v) && Innermost(h, v, |h|).None? && forall j: nat, u :: !UnwrapsTo(h, v, j, u)
    ensures TextsOf(inp, h, v) == Endless && !PropsRead(inp, h, v, props)
  {
    hide UnwrapsTo, Innermost, ValidHeap, PropsOf, KeyText;
  }

  lemma {:induction false} InnermostRead(inp: Input, h: Heap, v: GoVal, w: GoVal, props: map<GoString, GoString>)
    requires ValidHeap(h) && ValidVal(h, v) && Innermost(h, v, |h|) == Some(w)
    ensures TextsOf(inp, h, v) == Texts(props) <==> PropsOf(inp, h, w, props)
  {
    hide *;
    InnermostValid(h, v, w);
    TextsFrom(inp, h, v, w);
    if w.GMap? {
      EntriesRendered(inp, h, w, props);
    } else if !w.GNil? {
      ValueRendered(inp, h, w, props);
    } else {
      NothingRendered(inp, h, props);
    }
  }

  lemma {:induction false} InnermostValid(h: Heap, v: GoVal, w: GoVal)
    requires ValidHeap(h) && ValidVal(h, v) && Innermost(h, v, |h|) == Some(w)
    ensures ValidVal(h, w)
  {
    hide Innermost, ValidHeap;
  }

  /** The texts of an innermost value. */
  ghost function TextsAt(inp: Input, h: Heap, w: GoVal): Texts
    requires ValidHeap(h) && ValidVal(h, w)
  {
    hide ValidHeap, KeyText;
    if w.GNil? then Texts(map[])
    else if w.GMap? then
      var m := MapAt(h, w);
      if forall k | k in m :: KeyText(inp, h, m[k]).Some? then Texts(map k | k in m :: KeyText(inp, h, m[k]).value) else Endless
    else if KeyText(inp, h, w).Some? then Texts(map[Ascii("value") := KeyText(inp, h, w).value])
    else Endless
  }

  lemma {:induction false} TextsFrom(inp: Input, h: Heap, v: GoVal, w: GoVal)
    requires ValidHeap(h) && ValidVal(h, v) && ValidVal(h, w) && Innermost(h, v, |h|) == Some(w)
    ensures TextsOf(inp, h, v) == TextsAt(inp, h, w)
  {
    hide Innermost, ValidHeap, KeyText, Ascii;
  }

  lemma {:induction false} NothingRendered(inp: Input, h: Heap, props: map<GoString, GoString>)
    requires ValidHeap(h)
    ensures TextsAt(inp, h, GNil) == Texts(props) <==> PropsOf(inp, h, GNil, props)
  {
    hide ValidHeap;
  }

  lemma {:induction false} EntriesRendered(inp: Input, h: Heap, w: GoVal, props: map<GoString, GoString>)
    requires ValidHeap(h) && ValidVal(h, w) && w.GMap?
    ensures TextsAt(inp, h, w) == Texts(props) <==> PropsOf(inp, h, w, props)
  {
    hide ValidHeap, KeyText, Rendered;
    var m := MapAt(h, w);
    forall k, s | k in m ensures KeyText(inp, h, m[k]) == Some(s) <==> Rendered(inp, h, m[k], s) { KeyTextIs(inp, h, m[k], s); }
    if PropsOf(inp, h, w, props) {
      assert forall k | k in m :: KeyText(inp, h, m[k]) == Some(props[k]);
      assert TextsAt(inp, h, w).m == props;
    }
  }

  lemma {:induction false} ValueRendered(inp: Input, h: Heap, w: GoVal, props: map<GoString, GoString>)
    requires ValidHeap(h) && ValidVal(h, w) && !w.GMap? && !w.GNil?
    ensures TextsAt(inp, h, w) == Texts(props) <==> PropsOf(inp, h, w, props)
  {
    hide ValidHeap, KeyText, Rendered, Ascii;
    forall s ensures KeyText(inp, h, w) == Some(s) <==> Rendered(inp, h, w, s) { KeyTextIs(inp, h, w, s); }
    if PropsOf(inp, h, w, props) {
      assert props == map[Ascii("value") := props[Ascii("value")]];
    }
  }

  // ------------------------------------------------------------------
  // Exceptions

  /** What a field says as text: only scalars say something. */
  ghost predicate FieldSays(inp: Input, m: map<GoString, GoVal>, key: GoString, s: GoString) {
    if key !in m then s == []
    else
      match m[key]
      case GString(t) => s == t
      case GBool(b) => s == Ascii(if b then "true" else "false")
      case GInt(n) => NumberText(n, s)
      case GDouble(d) => s == inp.sprint(TLeaf(GDouble(d)))
      case _ => s == []
  }

  lemma {:induction false} FieldIs(inp: Input, m: map<GoString, GoVal>, key: GoString)
    ensures FieldSays(inp, m, key, MessageField(inp, m, key))
  {
    hide NumberText, Ascii;
    if key in m && m[key].GInt? { DecimalIs(m[key].n); }
  }

  const MESSAGE_FIELDS: seq<GoString> :=
    [Ascii("message"), Ascii("errorMsg"), Ascii("msg"), Ascii("detailMessage"), Ascii("localizedMessage")]

  /** The message is what the first field says that says anything; failing that the class and the
      class of its cause, and failing that the class. */
  ghost predicate MessageSays(inp: Input, h: Heap, typeName: GoString, m: map<GoString, GoVal>, msg: GoString) {
    || (exists i :: 0 <= i < |MESSAGE_FIELDS| && FieldSays(inp, m, MESSAGE_FIELDS[i], msg) && msg != []
                    && forall j | 0 <= j < i :: FieldSays(inp, m, MESSAGE_FIELDS[j], []))
    || ((forall j | 0 <= j < |MESSAGE_FIELDS| :: FieldSays(inp, m, MESSAGE_FIELDS[j], []))
        && (if exists a: nat, c :: CauseNamed(h, m, a, c) then
              exists a: nat, c :: CauseNamed(h, m, a, c) && msg == typeName + Ascii(": cause=") + c
            else msg == typeName))
  }

  ghost predicate CauseNamed(h: Heap, m: map<GoString, GoVal>, a: nat, c: GoString) {
    MapUnder(h, m, Ascii("cause"), a) && c == TextUnder(h[a].entries, Ascii("type")) && c != []
  }

  lemma {:induction false} CauseIs(h: Heap, m: map<GoString, GoVal>)
    requires ValidHeap(h) && forall k | k in m :: ValidVal(h, m[k])
    ensures CauseType(h, m) != [] ==> exists a: nat, c :: CauseNamed(h, m, a, c)
    ensures forall a: nat, c | CauseNamed(h, m, a, c) :: c == CauseType(h, m) != []
  {
    hide Ascii, ValidHeap;
    if CauseType(h, m) != [] { assert CauseNamed(h, m, m[Ascii("cause")].addr, CauseType(h, m)); }
  }

  lemma {:induction false} KeysAre()
    ensures |MESSAGE_FIELDS| == |MessageKeys()| == 5 && forall i | 0 <= i < 5 :: MessageKeys()[i] == MESSAGE_FIELDS[i]
  {
    hide Ascii;
  }

  ghost predicate SaidFirst(inp: Input, m: map<GoString, GoVal>, n: nat) {
    && n < |MESSAGE_FIELDS| && MessageField(inp, m, MESSAGE_FIELDS[n]) != []
    && forall j | 0 <= j < n :: MessageField(inp, m, MESSAGE_FIELDS[j]) == []
  }

  lemma {:induction false} FirstIs(inp: Input, m: map<GoString, GoVal>, i: nat)
    requires i <= 5 && forall j | 0 <= j < i :: MessageField(inp, m, MESSAGE_FIELDS[j]) == []
    ensures |MESSAGE_FIELDS| == |MessageKeys()| == 5
    ensures FirstMessage(inp, m, MessageKeys()) != [] ==>
              exists n: nat :: SaidFirst(inp, m, n) && MessageField(inp, m, MESSAGE_FIELDS[n]) == FirstMessage(inp, m, MessageKeys())
    ensures FirstMessage(inp, m, MessageKeys()) == [] ==> forall j | 0 <= j < 5 :: MessageField(inp, m, MESSAGE_FIELDS[j]) == []
    decreases 5 - i
  {
    KeysAre();
    hide MessageField, MessageKeys, FirstMessage, Ascii, MESSAGE_FIELDS;
    if i == 5 {
      NothingSaid(inp, m, MessageKeys());
    } else if MessageField(inp, m, MessageKeys()[i]) == [] {
      FirstIs(inp, m, i + 1);
    } else {
      FirstSaid(inp, m, MessageKeys(), i);
    }
  }

  lemma {:induction false} MessageIs(inp: Input, h: Heap, typeName: GoString, m: map<GoString, GoVal>)
    requires ValidHeap(h) && forall k | k in m :: ValidVal(h, m[k])
    ensures MessageSays(inp, h, typeName, m, Message(inp, h, typeName, m))
  {
    KeysAre();
    FirstIs(inp, m, 0);
    CauseIs(h, m);
    hide MessageField, MessageKeys, FirstMessage, Ascii, MESSAGE_FIELDS, FieldSays, CauseType, CauseNamed, ValidHeap;
    forall j | 0 <= j < 5 ensures FieldSays(inp, m, MESSAGE_FIELDS[j], MessageField(inp, m, MESSAGE_FIELDS[j])) {
      FieldIs(inp, m, MESSAGE_FIELDS[j]);
    }
  }

  /** What a stack trace is, in place of what it says, unless it is text. */
  ghost predicate SummarySays(h: Heap, v: GoVal, s: GoString) {
    match v
    case GNil => s == []
    case GString(t) => s == t
    case GSlice(a) => a < |h| && h[a].OSlice? && Counted(Ascii("list(len="), |h[a].items|, s)
    case GMap(a) =>
      && a < |h| && h[a].OMap?
      && var m := h[a].entries;
         if TextUnder(m, Ascii("type")) != [] then s == Ascii("object(") + TextUnder(m, Ascii("type")) + Ascii(")")
         else if exists b: nat :: MapUnder(h, m, Ascii("entries"), b) then
           exists b: nat :: MapUnder(h, m, Ascii("entries"), b) && Counted(Ascii("map(len="), |h[b].entries|, s)
         else Counted(Ascii("map(len="), |m|, s)
    case GBool(_) => s == Ascii("bool")
    case GInt(_) => s == Ascii("int64")
    case GDouble(_) => s == Ascii("float64")
    case GBytes(_) => s == Ascii("[]uint8")
    case GStrings(_) => s == Ascii("[]string")
  }

  ghost predicate Counted(what: GoString, n: nat, s: GoString) {
    exists digits :: NumberText(n, digits) && s == what + digits + Ascii(")")
  }

  lemma {:induction false} CountedIs(what: GoString, n: nat)
    ensures Counted(what, n, what + Digits(n) + Ascii(")"))
  {
    DecimalIs(n);
    hide NumberText, Ascii, Digits;
  }

  lemma {:induction false} SummaryIs(h: Heap, v: GoVal)
    requires ValidHeap(h) && ValidVal(h, v)
    ensures SummarySays(h, v, Summary(h, v))
  {
    hide Ascii, ValidHeap, Counted, Digits;
    InnerIs(h, v);
    if v.GSlice? { CountedIs(Ascii("list(len="), |h[v.addr].items|); }
    if v.GMap? {
      ValidMap(h, v.addr);
      CountedIs(Ascii("map(len="), |h[v.addr].entries|);
      if Inner(h, v).Some? {
        var b := Inner(h, v).value.addr;
        CountedIs(Ascii("map(len="), |h[b].entries|);
        assert MapUnder(h, h[v.addr].entries, Ascii("entries"), b);
      }
    }
  }

  // ------------------------------------------------------------------
  // The outcome

  const RESPONSE: GoString := Ascii("com.alipay.sofa.rpc.core.response.") + Ascii("SofaResponse")

  lemma {:induction false} ClassIs()
    ensures ResponseClass() == RESPONSE
  {
  }

  /** A response is an error if it says so, with what it says, and carries the answer. */
  ghost predicate ResponseSays(inp: Input, h: Heap, m: map<GoString, GoVal>, r: Response) {
    && r.isError == (Ascii("isError") in m && m[Ascii("isError")] == GBool(true))
    && r.message == TextUnder(m, Ascii("errorMsg"))
    && r.app == (if Ascii("appResponse") in m then m[Ascii("appResponse")] else GNil)
    && PropsRead(inp, h, if Ascii("responseProps") in m then m[Ascii("responseProps")] else GNil, r.props)
  }

  /** The properties of the error: the class, and the stack trace if there is one. */
  ghost predicate ErrorProps(h: Heap, typeName: GoString, m: map<GoString, GoVal>, props: map<GoString, GoString>) {
    && props.Keys == {Ascii("remoteExceptionType")} + (if Ascii("stackTrace") in m then {Ascii("stackTrace")} else {})
    && props[Ascii("remoteExceptionType")] == typeName
    && (Ascii("stackTrace") in m ==> SummarySays(h, m[Ascii("stackTrace")], props[Ascii("stackTrace")]))
  }

  /** Anything else that was thrown is an error that carries it. */
  ghost predicate ExceptionSays(inp: Input, h: Heap, typeName: GoString, a: nat, r: Response, h': Heap)
    requires a < |h| && h[a].OMap?
  {
    var m := h[a].entries;
    && r.isError && MessageSays(inp, h, typeName, m, r.message)
    && r.app == GMap(|h|) && h' == h + [OMap(map[Ascii("type") := GString(typeName), Ascii("fields") := GMap(a)])]
    && ErrorProps(h, typeName, m, r.props)
  }

  /** What comes of the value that was read. Nothing comes if the properties cannot be read. */
  ghost predicate Says(inp: Input, h: Heap, v: GoVal, o: Outcome<Response>, h': Heap) {
    && ((forall typeName, a: nat :: !ReadAsObject(h, v, typeName, a)) ==> o.Error?)
    && forall typeName, a: nat | ReadAsObject(h, v, typeName, a) ::
         if typeName != RESPONSE then o.Done? && ExceptionSays(inp, h, typeName, a, o.v, h')
         else if o.Done? then h' == h && ResponseSays(inp, h, h[a].entries, o.v)
         else o.Diverged? && forall props :: !PropsRead(inp, h, PropsField(h[a].entries), props)
  }

  function PropsField(m: map<GoString, GoVal>): GoVal {
    if Ascii("responseProps") in m then m[Ascii("responseProps")] else GNil
  }

  lemma {:induction false} ErrorPropsAre(h: Heap, typeName: GoString, m: map<GoString, GoVal>)
    requires ValidHeap(h) && forall k | k in m :: ValidVal(h, m[k])
    ensures ErrorProps(h, typeName, m, ExceptionProps(h, typeName, m))
  {
    PropKeysApart();
    hide Ascii, ValidHeap, SummarySays, Summary;
    if Ascii("stackTrace") in m { SummaryIs(h, m[Ascii("stackTrace")]); }
  }

  lemma {:induction false} ExceptionIs(inp: Input, h: Heap, v: GoVal, typeName: GoString, a: nat, r: Response, h': Heap)
    requires ValidHeap(h) && ValidVal(h, v) && ReadAsObject(h, v, typeName, a) && IsObject(h, v) && SaidByException(inp, h, v, r, h')
    ensures ExceptionSays(inp, h, typeName, a, r, h')
  {
    ObjectIs(h, v, typeName, a);
    ValidMap(h, a);
    hide Ascii, ValidHeap, MessageSays, SummarySays, Message, Summary, ErrorProps, ExceptionProps, ReadAsObject, IsObject, TypeOf, FieldsOf, MapAt;
    MessageIs(inp, h, typeName, h[a].entries);
    ErrorPropsAre(h, typeName, h[a].entries);
  }

  lemma {:induction false} PropKeysApart()
    ensures Ascii("remoteExceptionType") != Ascii("stackTrace")
  {
    assert |Ascii("remoteExceptionType")| == 19 && |Ascii("stackTrace")| == 10;
  }

  lemma {:induction false} ResponseIs(inp: Input, h: Heap, m: map<GoString, GoVal>, props: Texts, r: Response)
    requires ValidHeap(h) && forall k | k in m :: ValidVal(h, m[k])
    requires props == TextsOf(inp, h, PropsField(m)) && SaidByFields(h, m, props, r)
    ensures ResponseSays(inp, h, m, r)
  {
    hide Ascii, ValidHeap, TextsOf, PropsRead;
    TextsRead(inp, h, PropsField(m), r.props);
  }

  /** The outcome of reading an answer is what the object says. */
  lemma {:induction false} AnswersSay(inp: Input, h: Heap, v: GoVal, o: Outcome<Response>, h': Heap)
    requires ValidHeap(h) && ValidVal(h, v) && Answers(inp, h, v, o, h')
    ensures Says(inp, h, v, o, h')
  {
    ClassIs();
    hide Ascii, ValidHeap, TextsOf, PropsRead, ResponseClass, RESPONSE, ReadAsObject, SaidByException, SaidByFields, ExceptionSays, ResponseSays;
    hide IsObject, TypeOf, FieldsOf;
    ObjectFound(h, v);
    forall typeName, a: nat | ReadAsObject(h, v, typeName, a)
      ensures if typeName != RESPONSE then o.Done? && ExceptionSays(inp, h, typeName, a, o.v, h')
              else if o.Done? then h' == h && ResponseSays(inp, h, h[a].entries, o.v)
              else o.Diverged? && forall props :: !PropsRead(inp, h, PropsField(h[a].entries), props)
    {
      ObjectIs(h, v, typeName, a);
      if typeName != RESPONSE {
        ExceptionIs(inp, h, v, typeName, a, o.v, h');
      } else {
        ObjectMap(h, v, typeName, a);
        var m := h[a].entries;
        PropsFieldIs(h, m);
        if o.Done? {
          ResponseIs(inp, h, m, TextsOf(inp, h, PropsField(m)), o.v);
        } else {
          forall props ensures !PropsRead(inp, h, PropsField(m), props) { TextsRead(inp, h, PropsField(m), props); }
        }
      }
    }
  }

  lemma {:induction false} ObjectFound(h: Heap, v: GoVal)
    requires ValidHeap(h) && ValidVal(h, v)
    ensures IsObject(h, v) <==> exists typeName, a: nat :: ReadAsObject(h, v, typeName, a)
  {
    hide Ascii, ValidHeap, ReadAsObject;
    forall typeName, a: nat | ReadAsObject(h, v, typeName, a) ensures IsObject(h, v) { ObjectIs(h, v, typeName, a); }
    ObjectIs(h, v, [], 0);
  }

  lemma {:induction false} ObjectMap(h: Heap, v: GoVal, typeName: GoString, a: nat)
    requires ValidHeap(h) && ReadAsObject(h, v, typeName, a)
    ensures a < |h| && h[a].OMap? && forall k | k in h[a].entries :: ValidVal(h, h[a].entries[k])
  {
    hide ValidHeap;
    ValidMap(h, a);
  }

  lemma {:induction false} PropsFieldIs(h: Heap, m: map<GoString, GoVal>)
    requires forall k | k in m :: ValidVal(h, m[k])
    ensures PropsField(m) == Field(m, Ascii("responseProps")) && ValidVal(h, PropsField(m))
  {
    hide Ascii;
  }

  /** The object that a success is written as. */
  ghost predicate Written(app: Value, t: Tree) {
    && t.TMap? && Ascii("type") in t.entries && Ascii("fields") in t.entries
    && t.entries[Ascii("type")] == TLeaf(GString(RESPONSE)) && t.entries[Ascii("fields")].TMap?
    && var fields := t.entries[Ascii("fields")].entries;
       && fields.Keys == {Ascii("isError"), Ascii("errorMsg"), Ascii("appResponse"), Ascii("responseProps")}
       && fields[Ascii("isError")] == TLeaf(GBool(false)) && fields[Ascii("errorMsg")] == TLeaf(GNil)
       && fields[Ascii("appResponse")] == Image(app) && fields[Ascii("responseProps")] == TLeaf(GNil)
  }

  lemma {:induction false} SuccessWritten(app: Value)
    ensures Written(app, ObjectImage(ResponseClass(), FieldNames(), Images4(app)))
  {
    ClassIs();
    FieldNamesDistinct();
    NamesDiffer();
    ScalarImages();
    hide Ascii, RESPONSE, ResponseClass, Image;
    var ks := FieldNames();
    assert ks[0] != ks[1] && ks[0] != ks[2] && ks[0] != ks[3] && ks[1] != ks[2] && ks[1] != ks[3] && ks[2] != ks[3];
  }

  lemma {:induction false} ScalarImages()
    ensures Image(Bool(false)) == TLeaf(GBool(false)) && Image(Nil) == TLeaf(GNil)
  {
  }
}

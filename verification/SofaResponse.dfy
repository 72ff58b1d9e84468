/** The answer to an invocation: one SofaResponse object, or the exception a service threw.
    The program's own reader of answers, and its writer of answers that succeed. */
module SofaResponse {
  import opened Options
  import opened Bytes
  import opened GoValues
  import opened HessianDecoding
  import opened HessianEncoding
  import opened HessianRoundTrip
  import opened HessianReadBack
  import opened HessianWriter
  import opened HessianReader

  const DEFAULTS: Limits := Limits(128, 100_000, 100_000, 0x100_0000)
  const FRESH: DState := DState(0, 0, [], [], [], [])

  function ResponseClass(): GoString { Ascii("com.alipay.sofa.rpc.core.response.") + Ascii("SofaResponse") }

  function FieldNames(): (names: seq<GoString>)
    ensures |names| == 4
  {
    [Ascii("isError"), Ascii("errorMsg"), Ascii("appResponse"), Ascii("responseProps")]
  }

  // ------------------------------------------------------------------
  // Writing an answer

  function Payload(app: Value): (vs: seq<Value>)
    ensures |vs| == 4
  {
    [Bool(false), Nil, app, Nil]
  }

  ghost function Encoding(app: Value): Option<Encoded> {
    EncodeObject(Slice(Payload(app)), ResponseClass(), FieldNames(), Payload(app), map[])
  }

  ghost function Content(app: Value): Option<seq<byte>> {
    match Encoding(app)
    case Some(e) => Some(e.bytes)
    case None => None
  }

  method BuildSuccessResponse(app: Value) returns (content: Option<seq<byte>>)
    ensures content == Content(app)
  {
    hide EncodeObject, FieldNames, ResponseClass;
    var w := new Writer();
    var ok := w.WriteObject(ResponseClass(), FieldNames(), Payload(app), Slice(Payload(app)));
    if !ok {
      return None;
    }
    assert [] + Encoding(app).value.bytes == Encoding(app).value.bytes;
    return Some(w.buf);
  }

  // ------------------------------------------------------------------
  // The object that was read

  /** A decoded map, by its address. */
  function MapAt(h: Heap, v: GoVal): (m: map<GoString, GoVal>)
    requires ValidHeap(h) && ValidVal(h, v) && v.GMap?
    ensures forall k | k in m :: ValidVal(h, m[k])
  {
    assert ValidObj(h, h[v.addr]);
    h[v.addr].entries
  }

  function Field(m: map<GoString, GoVal>, key: GoString): GoVal {
    if key in m then m[key] else GNil
  }

  function Text(v: GoVal): GoString {
    if v.GString? then v.s else []
  }

  predicate IsObject(h: Heap, v: GoVal)
    requires ValidHeap(h) && ValidVal(h, v)
  {
    v.GMap? && Field(MapAt(h, v), Ascii("fields")).GMap?
  }

  function TypeOf(h: Heap, v: GoVal): GoString
    requires ValidHeap(h) && ValidVal(h, v) && v.GMap?
  {
    Text(Field(MapAt(h, v), Ascii("type")))
  }

  function FieldsOf(h: Heap, v: GoVal): (m: map<GoString, GoVal>)
    requires ValidHeap(h) && ValidVal(h, v) && IsObject(h, v)
    ensures forall k | k in m :: ValidVal(h, m[k])
  {
    MapAt(h, MapAt(h, v)[Ascii("fields")])
  }

  // ------------------------------------------------------------------
  // Response properties as text

  /** A map with entries of its own stands for those. */
  function Inner(h: Heap, v: GoVal): (w: Option<GoVal>)
    requires ValidHeap(h) && ValidVal(h, v)
    ensures w.Some? ==> v.GMap? && w.value.GMap? && ValidVal(h, w.value)
  {
    if v.GMap? && Field(MapAt(h, v), Ascii("entries")).GMap? then Some(MapAt(h, v)[Ascii("entries")]) else None
  }

  /** Entries of entries, to the innermost; None when more than `fuel` deep. */
  function Innermost(h: Heap, v: GoVal, fuel: nat): (w: Option<GoVal>)
    requires ValidHeap(h) && ValidVal(h, v)
    ensures w.Some? ==> ValidVal(h, w.value)
    decreases fuel
  {
    match Inner(h, v)
    case None => Some(v)
    case Some(w) => if fuel == 0 then None else Innermost(h, w, fuel - 1)
  }

  /** The innermost map is k maps in. */
  predicate EndsAfter(h: Heap, v: GoVal, k: nat)
    requires ValidHeap(h) && ValidVal(h, v)
    decreases k
  {
    match Inner(h, v)
    case None => k == 0
    case Some(w) => k > 0 && EndsAfter(h, w, k - 1)
  }

  lemma {:induction false} EndsOnce(h: Heap, v: GoVal, k: nat, j: nat)
    requires ValidHeap(h) && ValidVal(h, v) && EndsAfter(h, v, k) && EndsAfter(h, v, j)
    ensures k == j
    decreases k
  {
    if Inner(h, v).Some? {
      EndsOnce(h, Inner(h, v).value, k - 1, j - 1);
    }
  }

  lemma {:induction false} EnoughFuel(h: Heap, v: GoVal, k: nat, fuel: nat)
    requires ValidHeap(h) && ValidVal(h, v) && EndsAfter(h, v, k) && k <= fuel
    ensures Innermost(h, v, fuel).Some?
    decreases k
  {
    if k > 0 {
      EnoughFuel(h, Inner(h, v).value, k - 1, fuel - 1);
    }
  }

  lemma {:induction false} FuelCounted(h: Heap, v: GoVal, fuel: nat) returns (k: nat)
    requires ValidHeap(h) && ValidVal(h, v) && Innermost(h, v, fuel).Some?
    ensures k <= fuel && EndsAfter(h, v, k)
    decreases fuel
  {
    k := 0;
    if Inner(h, v).Some? {
      var j := FuelCounted(h, Inner(h, v).value, fuel - 1);
      k := j + 1;
    }
  }

  ghost predicate Ends(h: Heap, v: GoVal, atMost: nat)
    requires ValidHeap(h) && ValidVal(h, v)
  {
    exists k: nat :: k <= atMost && EndsAfter(h, v, k)
  }

  ghost predicate MapEnds(h: Heap, a: nat, atMost: nat)
    requires ValidHeap(h)
  {
    a < |h| && h[a].OMap? && Ends(h, GMap(a), atMost)
  }

  /** The maps on the way to the innermost one all differ. */
  lemma {:induction false} WayIn(h: Heap, v: GoVal, k: nat) returns (s: set<nat>)
    requires ValidHeap(h) && ValidVal(h, v) && EndsAfter(h, v, k)
    ensures |s| == k && forall a | a in s :: MapEnds(h, a, k)
    decreases k
  {
    s := {};
    if k > 0 {
      var t := WayIn(h, Inner(h, v).value, k - 1);
      if v.addr in t {
        assert MapEnds(h, v.addr, k - 1);
        var j: nat :| j <= k - 1 && EndsAfter(h, GMap(v.addr), j);
        EndsOnce(h, v, k, j);
      }
      s := t + {v.addr};
      forall a | a in s ensures MapEnds(h, a, k) {
        hide Inner;
        if a in t {
          assert MapEnds(h, a, k - 1);
        } else {
          assert v == GMap(a);
        }
      }
    }
  }

  /** As much fuel as there are objects decides it: unwrapping ends exactly when there is an
      innermost map. */
  lemma {:induction false} UnwrappingEnds(h: Heap, v: GoVal)
    requires ValidHeap(h) && ValidVal(h, v)
    ensures Innermost(h, v, |h|).Some? <==> exists k: nat :: Ends(h, v, k)
  {
    hide Inner, Innermost;
    if Innermost(h, v, |h|).Some? {
      var k := FuelCounted(h, v, |h|);
      assert Ends(h, v, k);
    } else {
      forall m: nat ensures !Ends(h, v, m) {
        if Ends(h, v, m) {
          var k: nat :| k <= m && EndsAfter(h, v, k);
          var s := WayIn(h, v, k);
          assert forall a | a in s :: MapEnds(h, a, k);
          Addresses(s, |h|);
          EnoughFuel(h, v, k, |h|);
        }
      }
    }
  }

  /** Endless: unwrapping never comes to an innermost map, or a value that contains itself is
      to be rendered as text. */
  datatype Texts = Texts(m: map<GoString, GoString>) | Endless

  /** No properties and empty ones are alike. */
  function TextsOf(inp: Input, h: Heap, v: GoVal): Texts
    requires ValidHeap(h) && ValidVal(h, v)
  {
    match Innermost(h, v, |h|)
    case None => Endless
    case Some(w) =>
      if w.GNil? then Texts(map[])
      else if w.GMap? then
        var m := MapAt(h, w);
        if forall k | k in m :: KeyText(inp, h, m[k]).Some? then Texts(map k | k in m :: KeyText(inp, h, m[k]).value) else Endless
      else
        match KeyText(inp, h, w)
        case Some(t) => Texts(map[Ascii("value") := t])
        case None => Endless
  }

  // ------------------------------------------------------------------
  // Exceptions

  /** A field as the text of a message: nothing but scalars gives one. */
  function MessageField(inp: Input, m: map<GoString, GoVal>, key: GoString): GoString {
    match Field(m, key)
    case GString(s) => s
    case GBool(b) => if b then Ascii("true") else Ascii("false")
    case GInt(n) => Decimal(n)
    case GDouble(d) => inp.sprint(TLeaf(GDouble(d)))
    case _ => []
  }

  function MessageKeys(): seq<GoString> {
    [Ascii("message"), Ascii("errorMsg"), Ascii("msg"), Ascii("detailMessage"), Ascii("localizedMessage")]
  }

  function FirstMessage(inp: Input, m: map<GoString, GoVal>, keys: seq<GoString>): GoString
    decreases |keys|
  {
    if keys == [] then []
    else if MessageField(inp, m, keys[0]) != [] then MessageField(inp, m, keys[0])
    else FirstMessage(inp, m, keys[1..])
  }

  function CauseType(h: Heap, m: map<GoString, GoVal>): GoString
    requires ValidHeap(h) && forall k | k in m :: ValidVal(h, m[k])
  {
    var cause := Field(m, Ascii("cause"));
    if cause.GMap? then TypeOf(h, cause) else []
  }

  function Message(inp: Input, h: Heap, typeName: GoString, m: map<GoString, GoVal>): GoString
    requires ValidHeap(h) && forall k | k in m :: ValidVal(h, m[k])
  {
    var said := FirstMessage(inp, m, MessageKeys());
    if said != [] then said
    else if CauseType(h, m) != [] then typeName + Ascii(": cause=") + CauseType(h, m)
    else typeName
  }

  /** A stack trace is not shown, only what it is. */
  function Summary(h: Heap, v: GoVal): GoString
    requires ValidHeap(h) && ValidVal(h, v)
  {
    match v
    case GNil => []
    case GString(s) => s
    case GSlice(a) => Ascii("list(len=") + Digits(|h[a].items|) + Ascii(")")
    case GMap(_) =>
      if TypeOf(h, v) != [] then Ascii("object(") + TypeOf(h, v) + Ascii(")")
      else if Inner(h, v).Some? then Ascii("map(len=") + Digits(|MapAt(h, Inner(h, v).value)|) + Ascii(")")
      else Ascii("map(len=") + Digits(|MapAt(h, v)|) + Ascii(")")
    case GBool(_) => Ascii("bool")
    case GInt(_) => Ascii("int64")
    case GDouble(_) => Ascii("float64")
    case GBytes(_) => Ascii("[]uint8")
    case GStrings(_) => Ascii("[]string")
  }

  function ExceptionProps(h: Heap, typeName: GoString, m: map<GoString, GoVal>): map<GoString, GoString>
    requires ValidHeap(h) && forall k | k in m :: ValidVal(h, m[k])
  {
    var known := map[Ascii("remoteExceptionType") := typeName];
    if Ascii("stackTrace") in m then known[Ascii("stackTrace") := Summary(h, m[Ascii("stackTrace")])] else known
  }

  // ------------------------------------------------------------------
  // Reading an answer

  datatype Response = Response(isError: bool, message: GoString, app: GoVal, props: map<GoString, GoString>)

  /** What the fields of a SofaResponse say; fields of other types than expected are ignored. */
  ghost predicate SaidByFields(h: Heap, m: map<GoString, GoVal>, props: Texts, r: Response) {
    && (r.isError <==> Field(m, Ascii("isError")) == GBool(true))
    && r.message == Text(Field(m, Ascii("errorMsg")))
    && r.app == Field(m, Ascii("appResponse"))
    && props == Texts(r.props)
  }

  /** What is made of an object of another class: an error that names it. */
  ghost predicate SaidByException(inp: Input, h: Heap, v: GoVal, r: Response, h': Heap)
    requires ValidHeap(h) && ValidVal(h, v) && IsObject(h, v)
  {
    var typeName, fields := TypeOf(h, v), FieldsOf(h, v);
    && r.isError
    && r.message == Message(inp, h, typeName, fields)
    && r.props == ExceptionProps(h, typeName, fields)
    && r.app == GMap(|h|)
    && h' == h + [OMap(map[Ascii("type") := GString(typeName), Ascii("fields") := MapAt(h, v)[Ascii("fields")]])]
  }

  /** The value read has been turned into this outcome, in this memory. */
  ghost predicate Answers(inp: Input, h: Heap, v: GoVal, o: Outcome<Response>, h': Heap)
    requires ValidHeap(h) && ValidVal(h, v)
  {
    if !IsObject(h, v) then o.Error?
    else if TypeOf(h, v) != ResponseClass() then o.Done? && SaidByException(inp, h, v, o.v, h')
    else
      var props := TextsOf(inp, h, Field(FieldsOf(h, v), Ascii("responseProps")));
      if props.Endless? then o.Diverged?
      else o.Done? && h' == h && SaidByFields(h, FieldsOf(h, v), props, o.v)
  }

  /** The first value of the data is the answer; what follows it is not looked at. */
  ghost predicate Decoded(inp: Input, o: Outcome<Response>, h: Heap)
    requires Valid(inp, FRESH)
  {
    match ReadValue(inp, FRESH)
    case Diverge(_) => o.Diverged?
    case Fail(_) => o.Error?
    case Ok(v, st) => Answers(inp, st.heap, v, o, h)
  }

  method DecodeResponse(content: seq<byte>, sprint: Tree -> GoString) returns (o: Outcome<Response>, h: Heap)
    ensures var inp := Input(content, DEFAULTS, sprint); Valid(inp, FRESH) && Decoded(inp, o, h)
  {
    hide HessianDecoding.ReadValue, Answers, MapAt;
    var d := new Decoder(content, DEFAULTS, sprint);
    var value := d.ReadValue();
    h := d.heap;
    if value.Done? {
      o, h := FromValue(d.inp, h, value.v);
    } else if value.Error? {
      o := Error;
    } else {
      o := Diverged;
    }
  }

  method FromValue(inp: Input, h: Heap, v: GoVal) returns (o: Outcome<Response>, h': Heap)
    requires ValidHeap(h) && ValidVal(h, v)
    ensures Answers(inp, h, v, o, h')
  {
    hide MapAt, Message, ExceptionProps, TextsOf, ResponseClass, SaidByException;
    h' := h;
    if !IsObject(h, v) {
      return Error, h;
    }
    if TypeOf(h, v) != ResponseClass() {
      var r;
      r, h' := DecodeRemoteException(inp, h, v);
      return Done(r), h';
    }
    var fields := FieldsOf(h, v);
    var props := TextsOf(inp, h, Field(fields, Ascii("responseProps")));
    if props.Endless? {
      return Diverged, h;
    }
    var isError := Field(fields, Ascii("isError"));
    o := Done(Response(isError.GBool? && isError.b, Text(Field(fields, Ascii("errorMsg"))),
                       Field(fields, Ascii("appResponse")), props.m));
  }

  method DecodeRemoteException(inp: Input, h: Heap, v: GoVal) returns (r: Response, h': Heap)
    requires ValidHeap(h) && ValidVal(h, v) && IsObject(h, v)
    ensures SaidByException(inp, h, v, r, h')
  {
    var typeName, fields := TypeOf(h, v), FieldsOf(h, v);
    hide MapAt, Message, ExceptionProps;
    h' := h + [OMap(map[Ascii("type") := GString(typeName), Ascii("fields") := MapAt(h, v)[Ascii("fields")]])];
    r := Response(true, Message(inp, h, typeName, fields), GMap(|h|), ExceptionProps(h, typeName, fields));
  }

  // ------------------------------------------------------------------
  // What an exception is turned into

  /** The message is the first of the five fields that says something. */
  lemma {:induction false} FirstSaid(inp: Input, m: map<GoString, GoVal>, keys: seq<GoString>, i: nat)
    requires i < |keys| && MessageField(inp, m, keys[i]) != []
    requires forall j | 0 <= j < i :: MessageField(inp, m, keys[j]) == []
    ensures FirstMessage(inp, m, keys) == MessageField(inp, m, keys[i])
    decreases i
  {
    hide MessageField;
    if i > 0 {
      assert keys[1..][i - 1] == keys[i];
      FirstSaid(inp, m, keys[1..], i - 1);
    }
  }

  /** Whatever class was thrown, the caller gets an error that carries the exception itself:
      an object of that class with those fields. */
  lemma {:induction false} ExceptionKept(inp: Input, h: Heap, v: GoVal, r: Response, h': Heap)
    requires ValidHeap(h) && ValidVal(h, v) && IsObject(h, v) && SaidByException(inp, h, v, r, h')
    ensures r.isError && ValidHeap(h') && ValidVal(h', r.app) && IsObject(h', r.app)
    ensures TypeOf(h', r.app) == TypeOf(h, v) && FieldsOf(h', r.app) == FieldsOf(h, v)
  {
    KeysDiffer();
    hide Message, ExceptionProps;
    forall a | 0 <= a < |h'| ensures ValidObj(h', h'[a]) {
      assert a < |h| ==> ValidObj(h, h[a]);
    }
  }

  /** It says the first thing the exception says, or names the cause, or at least the class. */
  lemma {:induction false} ExceptionSays(inp: Input, h: Heap, typeName: GoString, m: map<GoString, GoVal>, i: nat)
    requires ValidHeap(h) && forall k | k in m :: ValidVal(h, m[k])
    requires i <= |MessageKeys()| && forall j | 0 <= j < i :: MessageField(inp, m, MessageKeys()[j]) == []
    ensures Message(inp, h, typeName, m) == [] ==> typeName == []
    ensures i < |MessageKeys()| && MessageField(inp, m, MessageKeys()[i]) != [] ==>
              Message(inp, h, typeName, m) == MessageField(inp, m, MessageKeys()[i])
    ensures i == |MessageKeys()| && CauseType(h, m) == [] ==> Message(inp, h, typeName, m) == typeName
  {
    hide MessageField, CauseType, MessageKeys, FirstMessage;
    if i == |MessageKeys()| {
      NothingSaid(inp, m, MessageKeys());
    } else if MessageField(inp, m, MessageKeys()[i]) != [] {
      FirstSaid(inp, m, MessageKeys(), i);
    }
  }

  lemma {:induction false} NothingSaid(inp: Input, m: map<GoString, GoVal>, keys: seq<GoString>)
    requires forall j | 0 <= j < |keys| :: MessageField(inp, m, keys[j]) == []
    ensures FirstMessage(inp, m, keys) == []
    decreases |keys|
  {
    if keys != [] {
      NothingSaid(inp, m, keys[1..]);
    }
  }

  lemma {:induction false} KeysDiffer()
    ensures Ascii("type") != Ascii("fields")
  {
    assert |Ascii("type")| == 4 && |Ascii("fields")| == 6;
  }

  // ------------------------------------------------------------------
  // The two are each other's counterpart

  ghost function Images4(app: Value): map<GoString, Tree> {
    map[FieldNames()[0] := Image(Bool(false)), FieldNames()[1] := Image(Nil),
        FieldNames()[2] := Image(app), FieldNames()[3] := Image(Nil)]
  }

  lemma {:induction false} FieldNamesDistinct()
    ensures Distinct(FieldNames())
  {
    assert |FieldNames()[0]| == 7 && |FieldNames()[1]| == 8 && |FieldNames()[2]| == 11 && |FieldNames()[3]| == 13;
  }

  lemma {:induction false} FieldsMatch(app: Value)
    ensures Matches(Images4(app), FieldNames(), Payload(app))
  {
    hide Image;
    FieldNamesDistinct();
    var ks := FieldNames();
    assert ks[0] in ks && ks[1] in ks && ks[2] in ks && ks[3] in ks;
  }

  /** The reader has room for the answer within its limits. */
  ghost predicate Fits(inp: Input, app: Value)
    requires Encoding(app).Some?
  {
    Room(inp, FRESH, ObjectNeed(inp.limits, Slice(Payload(app)), ResponseClass(), FieldNames(), Payload(app), map[]), Encoding(app).value.defs)
  }

  lemma {:induction false} ObjectRead(inp: Input, app: Value)
    requires Encoding(app).Some? && Encoding(app).value.bytes == inp.data && inp.limits.Positive() && Fits(inp, app)
    ensures Valid(inp, FRESH) && ReadValue(inp, FRESH).Ok?
    ensures var r := ReadValue(inp, FRESH);
            && r.st.offset == |inp.data|
            && Rep(r.st.heap, 0, |r.st.heap|, r.v, ObjectImage(ResponseClass(), FieldNames(), Images4(app)))
  {
    hide EncodeObject, ObjectNeed, Rep, ObjectImage, ReadValue, Image, Images4, FieldNames, ResponseClass, Payload, Valid;
    FreshValid(inp);
    FieldNamesDistinct();
    FieldsMatch(app);
    CoupledEmpty();
    assert inp.data[0..0 + |inp.data|] == inp.data;
    ObjectReadsBack(inp, FRESH, Slice(Payload(app)), ResponseClass(), FieldNames(), Payload(app), map[], Encoding(app).value,
                    ObjectNeed(inp.limits, Slice(Payload(app)), ResponseClass(), FieldNames(), Payload(app), map[]), Images4(app));
  }

  lemma {:induction false} FreshValid(inp: Input)
    requires inp.limits.Positive()
    ensures Valid(inp, FRESH)
  {
  }

  lemma {:induction false} CoupledEmpty()
    ensures Coupled(map[], [])
  {
  }

  /** An object's tree, seen through its memory. */
  lemma {:induction false} ObjectSeen(h: Heap, v: GoVal, app: Value)
    requires ValidHeap(h) && ValidVal(h, v)
    requires Rep(h, 0, |h|, v, ObjectImage(ResponseClass(), FieldNames(), Images4(app)))
    ensures IsObject(h, v) && TypeOf(h, v) == ResponseClass()
    ensures FieldsOf(h, v).Keys == Images4(app).Keys
    ensures forall k | k in Images4(app) :: Rep(h, 0, |h|, FieldsOf(h, v)[k], Images4(app)[k])
  {
    hide Images4, FieldNames, ResponseClass;
    NamesDiffer();
    var t := ObjectImage(ResponseClass(), FieldNames(), Images4(app));
    assert t.entries[Ascii("type")] == TLeaf(GString(ResponseClass()));
    assert t.entries[Ascii("fields")] == TMap(Images4(app));
    assert Rep(h, 0, |h|, h[v.addr].entries[Ascii("type")], TLeaf(GString(ResponseClass())));
    assert Rep(h, 0, |h|, h[v.addr].entries[Ascii("fields")], TMap(Images4(app)));
  }

  lemma {:induction false} NamesDiffer()
    ensures Ascii("type") != Ascii("fields") && Ascii("fields") != Ascii("fieldNames") && Ascii("type") != Ascii("fieldNames")
  {
    assert |Ascii("type")| == 4 && |Ascii("fields")| == 6 && |Ascii("fieldNames")| == 10;
  }

  /** No error, no message, no properties, and the image of what was answered. */
  ghost predicate Succeeded(o: Outcome<Response>, h: Heap, app: Value) {
    o.Done? && !o.v.isError && o.v.message == [] && o.v.props == map[] && Rep(h, 0, |h|, o.v.app, Image(app))
  }

  lemma {:induction false} AnswerSeen(inp: Input, h: Heap, v: GoVal, o: Outcome<Response>, h': Heap, app: Value)
    requires ValidHeap(h) && ValidVal(h, v) && Answers(inp, h, v, o, h')
    requires Rep(h, 0, |h|, v, ObjectImage(ResponseClass(), FieldNames(), Images4(app)))
    ensures Succeeded(o, h', app)
  {
    ObjectSeen(h, v, app);
    FieldsSeen(inp, h, FieldsOf(h, v), app);
    hide MapAt, IsObject, TypeOf, FieldsOf, Rep, Image, Field, TextsOf, ResponseClass;
  }

  lemma {:induction false} ReadIsValid(inp: Input)
    requires Valid(inp, FRESH) && ReadValue(inp, FRESH).Ok?
    ensures var r := ReadValue(inp, FRESH); ValidHeap(r.st.heap) && ValidVal(r.st.heap, r.v)
  {
    hide ReadValue;
  }

  lemma {:induction false} AnswersDecoded(inp: Input, o: Outcome<Response>, h: Heap)
    requires Valid(inp, FRESH) && ReadValue(inp, FRESH).Ok? && Decoded(inp, o, h)
    requires var r := ReadValue(inp, FRESH); ValidHeap(r.st.heap) && ValidVal(r.st.heap, r.v)
    ensures var r := ReadValue(inp, FRESH); Answers(inp, r.st.heap, r.v, o, h)
  {
    hide ReadValue, Answers, Valid;
  }

  /** An answer that succeeds, built and then read, is the answer. */
  lemma {:induction false} SuccessReadsBack(inp: Input, app: Value, o: Outcome<Response>, h: Heap)
    requires Encoding(app).Some? && Encoding(app).value.bytes == inp.data && inp.limits.Positive() && Fits(inp, app)
    requires Valid(inp, FRESH) && Decoded(inp, o, h)
    ensures Succeeded(o, h, app)
  {
    hide *;
    ObjectRead(inp, app);
    var r := ReadValue(inp, FRESH);
    ReadIsValid(inp);
    AnswersDecoded(inp, o, h);
    AnswerSeen(inp, r.st.heap, r.v, o, h, app);
  }

  lemma {:induction false} FieldsSeen(inp: Input, h: Heap, m: map<GoString, GoVal>, app: Value)
    requires ValidHeap(h) && forall k | k in m :: ValidVal(h, m[k])
    requires m.Keys == Images4(app).Keys && forall k | k in Images4(app) :: Rep(h, 0, |h|, m[k], Images4(app)[k])
    ensures Field(m, Ascii("isError")) == GBool(false) && Field(m, Ascii("errorMsg")) == GNil
    ensures Rep(h, 0, |h|, Field(m, Ascii("appResponse")), Image(app))
    ensures TextsOf(inp, h, Field(m, Ascii("responseProps"))) == Texts(map[])
  {
    FieldNamesDistinct();
    var ks, ts := FieldNames(), Images4(app);
    assert ks[0] != ks[1] && ks[0] != ks[2] && ks[0] != ks[3] && ks[1] != ks[2] && ks[1] != ks[3] && ks[2] != ks[3];
    assert Rep(h, 0, |h|, m[ks[0]], ts[ks[0]]) && Rep(h, 0, |h|, m[ks[1]], ts[ks[1]]);
    assert Rep(h, 0, |h|, m[ks[2]], ts[ks[2]]) && Rep(h, 0, |h|, m[ks[3]], ts[ks[3]]);
  }

  /** Both halves on their objects: what one end answers the other end reads. */
  method Exchange(app: Value, sprint: Tree -> GoString) returns (content: Option<seq<byte>>, o: Outcome<Response>, h: Heap)
    ensures content == Content(app)
    ensures content.Some? && Fits(Input(content.value, DEFAULTS, sprint), app) ==>
              Succeeded(o, h, app)
  {
    hide ReadValue, Encoding, Fits, Decoded, Succeeded;
    content := BuildSuccessResponse(app);
    o, h := Error, [];
    if content.Some? {
      o, h := DecodeResponse(content.value, sprint);
      ghost var inp := Input(content.value, DEFAULTS, sprint);
      if Fits(inp, app) {
        SuccessReadsBack(inp, app, o, h);
      }
    }
  }
}

/** A request on the two objects: what a new writer builds, a new decoder reads. */
module RequestExchange {
  import opened Options
  import opened Bytes
  import opened GoValues
  import opened HessianDecoding
  import opened HessianRoundTrip
  import opened HessianReadBack
  import opened HessianReader
  import opened GenericRequest

  /** n values, one after the other. */
  method ReadValues(d: Decoder, n: nat) returns (o: Outcome<seq<GoVal>>)
    requires Valid(d.inp, d.State())
    modifies d
    ensures d.Did(ReadStream(d.inp, old(d.State()), n), o)
    decreases n
  {
    hide HessianDecoding.ReadValue, Valid;
    if n == 0 {
      return Done([]);
    }
    var v :- d.ReadValue();
    var vs :- ReadValues(d, n - 1);
    return Done([v] + vs);
  }

  /** The decoder stands at the end of the request and has read its object and its arguments. */
  ghost predicate HasRead(d: Decoder, values: seq<GoVal>, trim: GoString -> GoString, spec: RequestSpec)
    requires BaggageFits(trim, spec.baggage)
    reads d
  {
    && |values| == 1 + |spec.args|
    && d.offset == |d.inp.data| && d.depth == 0
    && Rep(d.heap, 0, |d.heap|, values[0], ObjectImage(RequestClass(), FieldNames(), FieldImages(trim, spec)))
    && RepAll(d.heap, 0, |d.heap|, values[1..], PrepareArgs(trim, spec.args))
  }

  /** The decoder's limits have room for the request. */
  ghost predicate Roomy(inp: Input, trim: GoString -> GoString, spec: RequestSpec)
    requires BaggageFits(trim, spec.baggage)
  {
    Room(inp, GenericRequest.FRESH, ContentNeed(inp.limits, trim, spec), ContentDefs(trim, spec))
  }

  lemma {:induction false} ContentFits(trim: GoString -> GoString, spec: RequestSpec)
    requires Content(trim, spec).Some?
    ensures BaggageFits(trim, spec.baggage)
  {
    hide BaggageFits, RequestFields;
  }

  lemma {:induction false} HasReadIt(d: Decoder, o: Outcome<seq<GoVal>>, trim: GoString -> GoString, spec: RequestSpec)
    requires Content(trim, spec) == Some(d.inp.data) && d.inp.limits.Positive() && BaggageFits(trim, spec.baggage) && Roomy(d.inp, trim, spec)
    requires Valid(d.inp, GenericRequest.FRESH) && d.Did(ReadStream(d.inp, GenericRequest.FRESH, 1 + |spec.args|), o)
    ensures o.Done? && HasRead(d, o.v, trim, spec)
  {
    hide Content, ContentNeed, ContentDefs, Room, ReadStream, Valid, BaggageFits, Rep, RepAll, ObjectImage, FieldImages, PrepareArgs;
    RequestReadsBack(d.inp, trim, spec);
  }

  /** Builds a request and reads it with a decoder of any limits: all that the limits have room
      for comes back. */
  method Exchange(trim: GoString -> GoString, spec: RequestSpec, limits: Limits, sprint: Tree -> GoString)
    returns (d: Decoder, o: Outcome<seq<GoVal>>, built: bool)
    ensures fresh(d) && built == Content(trim, spec).Some?
    ensures built ==> d.inp == Input(Content(trim, spec).value, limits.Ensured(), sprint)
    ensures built ==> BaggageFits(trim, spec.baggage)
    ensures built && Roomy(d.inp, trim, spec) ==> o.Done? && HasRead(d, o.v, trim, spec)
  {
    hide Content, Roomy, HasRead, ReadStream, Valid, BaggageFits, RequestFields;
    var request := BuildGenericRequest(trim, spec);
    built := request.Some?;
    d := new Decoder(if built then request.value.content else [], limits, sprint);
    o := Error;
    if built {
      o := ReadValues(d, 1 + |spec.args|);
      ContentFits(trim, spec);
      if Roomy(d.inp, trim, spec) {
        HasReadIt(d, o, trim, spec);
      }
    }
  }
}

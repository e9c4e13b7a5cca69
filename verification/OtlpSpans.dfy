/** Decoding an OTLP export request to spans (`spans_from_protobuf` and the message decoders of `src/otlp_pb.rs`, with
    `SpanParts::finish` of `src/otlp.rs`): unknown fields change nothing, the resource and the scope may stand anywhere
    among the spans they apply to, and a reference encoder is inverted on every well-formed request. */
module OtlpSpans {
  import opened Common
  import opened Wire
  import opened OtlpValues

  type Attributes = map<string, Value>

  // ---------------------------------------------------------------- the sweep every decoder runs

  /** What one field does to a decoder's locals; none when the field's content is malformed. */
  type Step<!S> = (S, Field) -> Option<S>

  function Folded<S>(fields: seq<Field>, state: S, step: Step<S>): Option<S> {
    if fields == [] then Some(state)
    else
      match step(state, fields[0])
      case None => None
      case Some(next) => Folded(fields[1..], next, step)
  }

  function Swept<S>(bytes: Bytes, state: S, step: Step<S>): Option<S> {
    match Fields(bytes)
    case None => None
    case Some(fields) => Folded(fields, state, step)
  }

  /** Reads a message field by field. */
  method Sweep<S(==)>(bytes: Bytes, initial: S, step: Step<S>) returns (r: Result<S, Refusal>)
    ensures Agrees(r, Swept(bytes, initial, step))
  {
    hide FieldsFrom;
    var reader := new Reader(bytes);
    var state := initial;
    while !reader.Done()
      invariant reader.Valid() && fresh(reader)
      invariant match FieldsFrom(bytes, reader.position)
                case None => Swept(bytes, initial, step).None?
                case Some(rest) => Swept(bytes, initial, step) == Folded(rest, state, step)
      decreases |bytes| - reader.position
    {
      var field :- ReadNext(reader);
      var next := step(state, field);
      if next.None? {
        return Err(BadWire);
      }
      state := next.value;
    }
    EndsRead(bytes, reader.position);
    r := Ok(state);
  }

  ghost predicate Ignores<S(!new)>(step: Step<S>, field: Field) {
    forall state: S :: step(state, field) == Some(state)
  }

  lemma {:induction false} FoldedJoin<S>(front: seq<Field>, back: seq<Field>, state: S, step: Step<S>)
    ensures Folded(front + back, state, step)
            == match Folded(front, state, step) case None => None case Some(next) => Folded(back, next, step)
    decreases |front|
  {
    if front == [] {
      assert front + back == back;
    } else {
      assert (front + back)[1..] == front[1..] + back;
      if step(state, front[0]).Some? {
        FoldedJoin(front[1..], back, step(state, front[0]).value, step);
      }
    }
  }

  /** A field a decoder does not know may be put between any two of a message's fields. */
  lemma UnknownFieldIgnored<S(!new)>(front: Bytes, unknown: Field, back: Bytes, state: S, step: Step<S>)
    requires Fields(front).Some? && Encodable(unknown) && Ignores(step, unknown)
    ensures Swept(front + EncodedField(unknown) + back, state, step) == Swept(front + back, state, step)
  {
    hide Fields, EncodedField;
    var middle := EncodedField(unknown);
    FieldsReadBack([unknown]);
    assert Encoded([unknown]) == middle by { OneEncoded(unknown); }
    assert front + middle + back == front + (middle + back);
    MessagesConcatenate(front, middle + back);
    MessagesConcatenate(middle, back);
    MessagesConcatenate(front, back);
    if Fields(back).Some? {
      var before, after := Fields(front).value, Fields(back).value;
      FoldedJoin(before, [unknown] + after, state, step);
      FoldedJoin(before, after, state, step);
      if Folded(before, state, step).Some? {
        assert ([unknown] + after)[1..] == after;
      }
    }
  }

  lemma OneEncoded(field: Field)
    ensures Encoded([field]) == EncodedField(field)
  {
    hide EncodedField;
    assert [field][1..] == [];
  }

  predicate IsMessage(field: Field, number: nat) { field.Delimited? && field.number == number }

  /** The fields of one number that hold a message. */
  function Only(fields: seq<Field>, number: nat): seq<Field> {
    if fields == [] then []
    else (if IsMessage(fields[0], number) then [fields[0]] else []) + Only(fields[1..], number)
  }

  ghost predicate Minds<S(!new)>(step: Step<S>, number: nat) {
    forall field: Field :: !IsMessage(field, number) ==> Ignores(step, field)
  }

  /** A sweep that minds one field number sees only those fields. */
  lemma {:induction false} SweepSeesOnly<S(!new)>(fields: seq<Field>, number: nat, state: S, step: Step<S>)
    requires Minds(step, number)
    ensures Folded(fields, state, step) == Folded(Only(fields, number), state, step)
    decreases |fields|
  {
    if fields != [] {
      var first := fields[0];
      if IsMessage(first, number) {
        var kept := Only(fields, number);
        assert kept[0] == first && kept[1..] == Only(fields[1..], number);
        if step(state, first).Some? {
          SweepSeesOnly(fields[1..], number, step(state, first).value, step);
        }
      } else {
        assert Ignores(step, first) && step(state, first) == Some(state);
        assert Only(fields, number) == Only(fields[1..], number);
        SweepSeesOnly(fields[1..], number, state, step);
      }
    }
  }

  // ---------------------------------------------------------------- spans

  datatype Event = Event(name: string, timestamp: nat, attributes: Attributes)

  datatype Link = Link(traceId: string, spanId: string, attributes: Attributes)

  datatype Status = Unset | StatusOk | StatusError

  datatype Span = Span(traceId: string, spanId: string, tenant: string, parent: Option<string>, name: string,
                       start: nat, end: nat, status: Status, service: string, attributes: Attributes,
                       events: seq<Event>,
                       links: seq<Link>)

  /** What a span's fields have said so far. */
  datatype SpanParts = SpanParts(traceId: Option<string>, spanId: Option<string>, parent: string, name: string,
                                 start: Option<nat>, end: Option<nat>, code: Option<nat>, attributes: Attributes,
                                 events: seq<Event>, links: seq<Link>)

  const NO_SPAN := SpanParts(None, None, [], [], None, None, None, map[], [], [])

  function WithPair(text: Text, bytes: Bytes, attributes: Attributes): Option<Attributes> {
    match KeyValueOf(text, bytes, 0)
    case None => None
    case Some((key, value)) => Some(attributes[key := value])
  }

  datatype EventParts = EventParts(name: string, timestamp: Option<nat>, attributes: Attributes)

  function EventStep(text: Text): Step<EventParts> {
    (parts: EventParts, field: Field) =>
      match field
      case Fixed64(1, value) => Some(parts.(timestamp := Some(value)))
      case Delimited(2, bytes) => (match text.decode(bytes) case None => None case Some(s) => Some(parts.(name := s)))
      case Delimited(3, bytes) =>
        (match WithPair(text, bytes, parts.attributes) case None => None case Some(a) => Some(parts.(attributes := a)))
      case _ => Some(parts)
  }

  function EventOf(text: Text, bytes: Bytes): Option<Event> {
    match Swept(bytes, EventParts([], None, map[]), EventStep(text))
    case None => None
    case Some(parts) =>
      if parts.timestamp.None? then None else Some(Event(parts.name, parts.timestamp.value, parts.attributes))
  }

  datatype LinkParts = LinkParts(traceId: Option<string>, spanId: Option<string>, attributes: Attributes)

  function LinkStep(text: Text): Step<LinkParts> {
    (parts: LinkParts, field: Field) =>
      match field
      case Delimited(1, bytes) => Some(parts.(traceId := Some(Hex(bytes))))
      case Delimited(2, bytes) => Some(parts.(spanId := Some(Hex(bytes))))
      case Delimited(4, bytes) =>
        (match WithPair(text, bytes, parts.attributes) case None => None case Some(a) => Some(parts.(attributes := a)))
      case _ => Some(parts)
  }

  function LinkOf(text: Text, bytes: Bytes): Option<Link> {
    match Swept(bytes, LinkParts(None, None, map[]), LinkStep(text))
    case None => None
    case Some(parts) =>
      if parts.traceId.None? || parts.spanId.None? then None
      else Some(Link(parts.traceId.value, parts.spanId.value, parts.attributes))
  }

  function CodeStep(): Step<Option<nat>> {
    (code: Option<nat>, field: Field) => match field case Varint(3, value) => Some(Some(value)) case _ => Some(code)
  }

  function SpanStep(text: Text): Step<SpanParts> {
    (parts: SpanParts, field: Field) =>
      match field
      case Delimited(1, bytes) => Some(parts.(traceId := Some(Hex(bytes))))
      case Delimited(2, bytes) => Some(parts.(spanId := Some(Hex(bytes))))
      case Delimited(4, bytes) => Some(parts.(parent := Hex(bytes)))
      case Delimited(5, bytes) => (match text.decode(bytes) case None => None case Some(s) => Some(parts.(name := s)))
      case Fixed64(7, value) => Some(parts.(start := Some(value)))
      case Fixed64(8, value) => Some(parts.(end := Some(value)))
      case Delimited(9, bytes) =>
        (match WithPair(text, bytes, parts.attributes) case None => None case Some(a) => Some(parts.(attributes := a)))
      case Delimited(11, bytes) =>
        (match EventOf(text, bytes)
         case None => None
         case Some(event) => Some(parts.(events := parts.events + [event])))
      case Delimited(13, bytes) =>
        (match LinkOf(text, bytes) case None => None case Some(link) => Some(parts.(links := parts.links + [link])))
      case Delimited(15, bytes) =>
        (match Swept(bytes, None, CodeStep()) case None => None case Some(code) => Some(parts.(code := code)))
      case _ => Some(parts)
  }

  function StatusOf(code: Option<nat>): Status {
    if code == Some(1) then StatusOk else if code == Some(2) then StatusError else Unset
  }

  function Meaningful(links: seq<Link>): seq<Link> {
    if links == [] then []
    else
      Meaningful(links[..|links| - 1])
      + if links[|links| - 1].traceId == [] || links[|links| - 1].spanId == [] then [] else [links[|links| - 1]]
  }

  /** The span its parts make: required fields there, ids not empty, the scope's attributes beneath its own. */
  function Finished(parts: SpanParts, service: string, tenant: string, scope: Attributes): Option<Span> {
    if parts.traceId.None? || parts.spanId.None? || parts.start.None? || parts.end.None? then None
    else if parts.traceId.value == [] || parts.spanId.value == [] then None
    else
      Some(Span(parts.traceId.value, parts.spanId.value, tenant,
                if parts.parent == [] then None else Some(parts.parent), parts.name, parts.start.value, parts.end.value,
                StatusOf(parts.code), service, scope + parts.attributes, parts.events, Meaningful(parts.links)))
  }

  function SpanOf(text: Text, bytes: Bytes, service: string, tenant: string, scope: Attributes): Option<Span> {
    match Swept(bytes, NO_SPAN, SpanStep(text))
    case None => None
    case Some(parts) => Finished(parts, service, tenant, scope)
  }

  // ---------------------------------------------------------------- scopes and resources

  /** The last scope message's attributes. */
  function ScopeStep(text: Text): Step<Attributes> {
    (attributes: Attributes, field: Field) =>
      if IsMessage(field, 1) then PairsOf(text, field.bytes, 3, 0) else Some(attributes)
  }

  function SpansStep(text: Text, service: string, tenant: string, scope: Attributes): Step<seq<Span>> {
    (spans: seq<Span>, field: Field) =>
      if IsMessage(field, 2) then
        match SpanOf(text, field.bytes, service, tenant, scope)
          case None => None
          case Some(span) => Some(spans + [span])
      else Some(spans)
  }

  /** Two sweeps: the scope first, wherever it stands, then the spans it applies to. */
  function ScopeSpansOf(text: Text, bytes: Bytes, service: string, tenant: string): Option<seq<Span>> {
    match Swept(bytes, map[], ScopeStep(text))
    case None => None
    case Some(scope) => Swept(bytes, [], SpansStep(text, service, tenant, scope))
  }

  datatype Identity = Identity(service: Option<string>, tenant: Option<string>)

  /** The first string under each name. */
  function IdentityStep(text: Text): Step<Identity> {
    (identity: Identity, field: Field) =>
      if !IsMessage(field, 1) then Some(identity)
      else
        match KeyValueOf(text, field.bytes, 0)
        case None => None
        case Some((key, value)) =>
          if key == "service.name" && value.Str? && identity.service.None?
          then Some(identity.(service := Some(value.text)))
          else if key == "traza.tenant" && value.Str? && identity.tenant.None?
          then Some(identity.(tenant := Some(value.text)))
          else Some(identity)
  }

  function ResourceStep(text: Text): Step<Identity> {
    (identity: Identity, field: Field) =>
      if IsMessage(field, 1) then Swept(field.bytes, Identity(None, None), IdentityStep(text)) else Some(identity)
  }

  function ScopesStep(text: Text, service: string, tenant: string): Step<seq<Span>> {
    (spans: seq<Span>, field: Field) =>
      if IsMessage(field, 2) then
        match ScopeSpansOf(text, field.bytes, service, tenant) case None => None case Some(more) => Some(spans + more)
      else Some(spans)
  }

  function ServiceOf(identity: Identity): string { identity.service.GetOr("unknown_service") }

  function TenantOf(identity: Identity): string { identity.tenant.GetOr("") }

  /** Two sweeps: the resource first, wherever it stands, then the scopes that inherit from it. */
  function ResourceSpansOf(text: Text, bytes: Bytes): Option<seq<Span>> {
    match Swept(bytes, Identity(None, None), ResourceStep(text))
    case None => None
    case Some(identity) => Swept(bytes, [], ScopesStep(text, ServiceOf(identity), TenantOf(identity)))
  }

  function RequestStep(text: Text): Step<seq<Span>> {
    (spans: seq<Span>, field: Field) =>
      if IsMessage(field, 1) then
        match ResourceSpansOf(text, field.bytes) case None => None case Some(more) => Some(spans + more)
      else Some(spans)
  }

  function SpansOf(text: Text, bytes: Bytes): Option<seq<Span>> { Swept(bytes, [], RequestStep(text)) }

  method SpansFromProtobuf(text: Text, bytes: Bytes) returns (r: Result<seq<Span>, Refusal>)
    ensures Agrees(r, SpansOf(text, bytes))
  {
    r := Sweep(bytes, [], RequestStep(text));
  }

  // ---------------------------------------------------------------- field order

  /** A resource's spans depend on its resource fields among themselves and its scope fields among themselves: where
      they stand with respect to each other, and any other field, makes no difference. */
  lemma ResourceOrderFree(text: Text, one: Bytes, other: Bytes)
    requires Fields(one).Some? && Fields(other).Some?
    requires Only(Fields(one).value, 1) == Only(Fields(other).value, 1)
    requires Only(Fields(one).value, 2) == Only(Fields(other).value, 2)
    ensures ResourceSpansOf(text, one) == ResourceSpansOf(text, other)
  {
    var ones, others := Fields(one).value, Fields(other).value;
    hide Fields, ScopeSpansOf;
    var start := Identity(None, None);
    SweepSeesOnly(ones, 1, start, ResourceStep(text));
    SweepSeesOnly(others, 1, start, ResourceStep(text));
    if Folded(ones, start, ResourceStep(text)).Some? {
      var identity := Folded(ones, start, ResourceStep(text)).value;
      var step := ScopesStep(text, ServiceOf(identity), TenantOf(identity));
      SweepSeesOnly(ones, 2, [], step);
      SweepSeesOnly(others, 2, [], step);
    }
  }

  /** Likewise a scope among the spans it applies to. */
  lemma ScopeOrderFree(text: Text, one: Bytes, other: Bytes, service: string, tenant: string)
    requires Fields(one).Some? && Fields(other).Some?
    requires Only(Fields(one).value, 1) == Only(Fields(other).value, 1)
    requires Only(Fields(one).value, 2) == Only(Fields(other).value, 2)
    ensures ScopeSpansOf(text, one, service, tenant) == ScopeSpansOf(text, other, service, tenant)
  {
    var ones, others := Fields(one).value, Fields(other).value;
    hide Fields, SpanOf;
    SweepSeesOnly(ones, 1, map[], ScopeStep(text));
    SweepSeesOnly(others, 1, map[], ScopeStep(text));
    if Folded(ones, map[], ScopeStep(text)).Some? {
      var step := SpansStep(text, service, tenant, Folded(ones, map[], ScopeStep(text)).value);
      SweepSeesOnly(ones, 2, [], step);
      SweepSeesOnly(others, 2, [], step);
    }
  }

  /** Fields no decoder of a span knows. */
  predicate UnknownToSpan(field: Field) {
    match field
    case Delimited(number, _) => number !in {1, 2, 4, 5, 9, 11, 13, 15}
    case Fixed64(number, _) => number != 7 && number != 8
    case _ => true
  }

  lemma SpanIgnoresUnknown(text: Text, front: Bytes, unknown: Field, back: Bytes, service: string, tenant: string,
                           scope: Attributes)
    requires Fields(front).Some? && Encodable(unknown) && UnknownToSpan(unknown)
    ensures SpanOf(text, front + EncodedField(unknown) + back, service, tenant, scope)
            == SpanOf(text, front + back, service, tenant, scope)
  {
    hide Fields, EncodedField, Folded;
    UnknownFieldIgnored(front, unknown, back, NO_SPAN, SpanStep(text));
  }

  /** A resource's message, with any field that is neither resource nor scope put anywhere. */
  lemma ResourceIgnoresUnknown(text: Text, front: Bytes, unknown: Field, back: Bytes)
    requires Fields(front).Some? && Encodable(unknown) && !IsMessage(unknown, 1) && !IsMessage(unknown, 2)
    ensures ResourceSpansOf(text, front + EncodedField(unknown) + back) == ResourceSpansOf(text, front + back)
  {
    hide Fields, EncodedField, Folded;
    UnknownFieldIgnored(front, unknown, back, Identity(None, None), ResourceStep(text));
    var identity := Swept(front + back, Identity(None, None), ResourceStep(text));
    if identity.Some? {
      UnknownFieldIgnored(front, unknown, back, [],
                          ScopesStep(text, ServiceOf(identity.value), TenantOf(identity.value)));
    }
  }
}

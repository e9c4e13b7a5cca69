/** A reference encoder of whole OTLP export requests, which the decoder of `src/otlp_pb.rs` inverts: every resource,
    scope and span comes back with what it inherits, in order. */
module OtlpRequest {
  import opened Common
  import opened Wire
  import opened OtlpValues
  import opened OtlpRoundTrip
  import opened OtlpSpans

  // ---------------------------------------------------------------- requests as an exporter sees them

  datatype EventMsg = EventMsg(name: string, timestamp: nat, pairs: seq<AnyPair>)

  datatype LinkMsg = LinkMsg(traceId: Bytes, spanId: Bytes, pairs: seq<AnyPair>)

  datatype SpanMsg = SpanMsg(traceId: Bytes, spanId: Bytes, parent: Bytes, name: string, start: nat, end: nat,
                             pairs: seq<AnyPair>, events: seq<EventMsg>, links: seq<LinkMsg>, code: Option<nat>)

  datatype ScopeMsg = ScopeMsg(pairs: seq<AnyPair>, spans: seq<SpanMsg>)

  datatype ResourceMsg = ResourceMsg(pairs: seq<AnyPair>, scopes: seq<ScopeMsg>)

  // ---------------------------------------------------------------- encoding

  function PairsAs(text: Text, number: nat, pairs: seq<AnyPair>): seq<Field> {
    if pairs == [] then [] else [Delimited(number, EncodedPair(text, pairs[0]))] + PairsAs(text, number, pairs[1..])
  }

  function EventFields(text: Text, msg: EventMsg): seq<Field> {
    [Fixed64(1, msg.timestamp), Delimited(2, text.encode(msg.name))] + PairsAs(text, 3, msg.pairs)
  }

  function EventsAs(text: Text, events: seq<EventMsg>): seq<Field> {
    if events == [] then [] else [Delimited(11, Encoded(EventFields(text, events[0])))] + EventsAs(text, events[1..])
  }

  function LinkFields(text: Text, msg: LinkMsg): seq<Field> {
    [Delimited(1, msg.traceId), Delimited(2, msg.spanId)] + PairsAs(text, 4, msg.pairs)
  }

  function LinksAs(text: Text, links: seq<LinkMsg>): seq<Field> {
    if links == [] then [] else [Delimited(13, Encoded(LinkFields(text, links[0])))] + LinksAs(text, links[1..])
  }

  function HeadFields(text: Text, msg: SpanMsg): seq<Field> {
    [Delimited(1, msg.traceId), Delimited(2, msg.spanId), Delimited(4, msg.parent), Delimited(5, text.encode(msg.name)),
     Fixed64(7, msg.start), Fixed64(8, msg.end)]
  }

  function CodeFields(code: Option<nat>): seq<Field> {
    if code.None? then [] else [Delimited(15, Encoded([Varint(3, code.value)]))]
  }

  function SpanFields(text: Text, msg: SpanMsg): seq<Field> {
    HeadFields(text, msg) + (PairsAs(text, 9, msg.pairs) + (EventsAs(text, msg.events)
    + (LinksAs(text, msg.links) + CodeFields(msg.code))))
  }

  function SpansAs(text: Text, spans: seq<SpanMsg>): seq<Field> {
    if spans == [] then [] else [Delimited(2, Encoded(SpanFields(text, spans[0])))] + SpansAs(text, spans[1..])
  }

  function ScopeFields(text: Text, msg: ScopeMsg): seq<Field> {
    [Delimited(1, Encoded(PairsAs(text, 3, msg.pairs)))] + SpansAs(text, msg.spans)
  }

  function ScopesAs(text: Text, scopes: seq<ScopeMsg>): seq<Field> {
    if scopes == [] then [] else [Delimited(2, Encoded(ScopeFields(text, scopes[0])))] + ScopesAs(text, scopes[1..])
  }

  function ResourceFields(text: Text, msg: ResourceMsg): seq<Field> {
    [Delimited(1, Encoded(PairsAs(text, 1, msg.pairs)))] + ScopesAs(text, msg.scopes)
  }

  function RequestFields(text: Text, request: seq<ResourceMsg>): seq<Field> {
    if request == [] then []
    else [Delimited(1, Encoded(ResourceFields(text, request[0])))] + RequestFields(text, request[1..])
  }

  // ---------------------------------------------------------------- what fits on the wire

  ghost predicate AllEncodable(fields: seq<Field>) {
    forall i :: 0 <= i < |fields| ==> Encodable(fields[i])
  }

  /** Pairs whose lengths and integers fit, nested within the decoder's cap. */
  ghost predicate PairsFitting(text: Text, pairs: seq<AnyPair>) {
    forall i :: 0 <= i < |pairs| ==> PairFits(text, pairs[i]) && Nesting(pairs[i].value) <= MAX_DEPTH
  }

  ghost predicate SpanFits(text: Text, msg: SpanMsg) {
    && AllEncodable(SpanFields(text, msg)) && PairsFitting(text, msg.pairs)
    && (forall i :: 0 <= i < |msg.events| ==>
          AllEncodable(EventFields(text, msg.events[i])) && PairsFitting(text, msg.events[i].pairs))
    && (forall i :: 0 <= i < |msg.links| ==>
          AllEncodable(LinkFields(text, msg.links[i])) && PairsFitting(text, msg.links[i].pairs))
    && (msg.code.Some? ==> msg.code.value < MODULUS)
  }

  ghost predicate ScopeFits(text: Text, msg: ScopeMsg) {
    && AllEncodable(ScopeFields(text, msg)) && AllEncodable(PairsAs(text, 3, msg.pairs))
    && PairsFitting(text, msg.pairs)
    && forall i :: 0 <= i < |msg.spans| ==> SpanFits(text, msg.spans[i])
  }

  ghost predicate ResourceFits(text: Text, msg: ResourceMsg) {
    && AllEncodable(ResourceFields(text, msg)) && AllEncodable(PairsAs(text, 1, msg.pairs))
    && PairsFitting(text, msg.pairs)
    && forall i :: 0 <= i < |msg.scopes| ==> ScopeFits(text, msg.scopes[i])
  }

  ghost predicate RequestFits(text: Text, request: seq<ResourceMsg>) {
    AllEncodable(RequestFields(text, request)) && forall i :: 0 <= i < |request| ==> ResourceFits(text, request[i])
  }

  // ---------------------------------------------------------------- what is meant

  /** Attributes, the last of a key winning. */
  function AttributesOf(pairs: seq<AnyPair>, before: Attributes): Attributes {
    if pairs == [] then before else AttributesOf(pairs[1..], before[pairs[0].key := Meaning(pairs[0].value)])
  }

  function EventsMeant(events: seq<EventMsg>): seq<Event> {
    if events == [] then []
    else [Event(events[0].name, events[0].timestamp, AttributesOf(events[0].pairs, map[]))] + EventsMeant(events[1..])
  }

  function LinksMeant(links: seq<LinkMsg>): seq<Link> {
    if links == [] then []
    else [LinkMeant(links[0])] + LinksMeant(links[1..])
  }

  function LinkMeant(msg: LinkMsg): Link {
    Link(Hex(msg.traceId), Hex(msg.spanId), AttributesOf(msg.pairs, map[]))
  }

  function PartsMeant(msg: SpanMsg): SpanParts {
    SpanParts(Some(Hex(msg.traceId)), Some(Hex(msg.spanId)), Hex(msg.parent), msg.name, Some(msg.start), Some(msg.end),
              msg.code, AttributesOf(msg.pairs, map[]), EventsMeant(msg.events), LinksMeant(msg.links))
  }

  function SpansMeant(spans: seq<SpanMsg>, service: string, tenant: string, scope: Attributes): Option<seq<Span>> {
    if spans == [] then Some([])
    else
      match Finished(PartsMeant(spans[0]), service, tenant, scope)
      case None => None
      case Some(span) =>
        match SpansMeant(spans[1..], service, tenant, scope) case None => None case Some(rest) => Some([span] + rest)
  }

  function ScopesMeant(scopes: seq<ScopeMsg>, service: string, tenant: string): Option<seq<Span>> {
    if scopes == [] then Some([])
    else
      match SpansMeant(scopes[0].spans, service, tenant, AttributesOf(scopes[0].pairs, map[]))
      case None => None
      case Some(spans) =>
        match ScopesMeant(scopes[1..], service, tenant)
        case None => None
        case Some(rest) => Some(spans + rest)
  }

  /** The first string under a name. */
  function FirstString(pairs: seq<AnyPair>, name: string): Option<string> {
    if pairs == [] then None
    else if pairs[0].key == name && Meaning(pairs[0].value).Str? then Some(Meaning(pairs[0].value).text)
    else FirstString(pairs[1..], name)
  }

  function IdentityMeant(pairs: seq<AnyPair>): Identity {
    Identity(FirstString(pairs, "service.name"), FirstString(pairs, "traza.tenant"))
  }

  /** Every span of the request, with the service and tenant of its resource and the attributes of its scope. */
  function RequestMeant(request: seq<ResourceMsg>): Option<seq<Span>> {
    if request == [] then Some([])
    else
      var identity := IdentityMeant(request[0].pairs);
      match ScopesMeant(request[0].scopes, ServiceOf(identity), TenantOf(identity))
      case None => None
      case Some(spans) => match RequestMeant(request[1..]) case None => None case Some(rest) => Some(spans + rest)
  }

  // ---------------------------------------------------------------- decoding inverts encoding

  lemma PairRead(text: Text, pair: AnyPair)
    requires Faithful(text) && PairFits(text, pair) && Nesting(pair.value) <= MAX_DEPTH
    ensures KeyValueOf(text, EncodedPair(text, pair), 0) == Some((pair.key, Meaning(pair.value)))
  {
    hide PairFits, Nesting, Meaning, EncodedPair, KeyValueOf;
    PairDecodes(text, pair, 0);
  }

  /** A step that puts pairs of one field number into attributes it holds. */
  ghost predicate TakesPairs<S(!new)>(text: Text, number: nat, step: Step<S>, get: S -> Attributes,
                                      put: (S, Attributes) -> S) {
    && (forall s: S, bytes: Bytes ::
          step(s, Delimited(number, bytes))
          == match WithPair(text, bytes, get(s)) case None => None case Some(a) => Some(put(s, a)))
    && (forall s: S, a: Attributes :: get(put(s, a)) == a)
    && (forall s: S, a: Attributes, b: Attributes :: put(put(s, a), b) == put(s, b))
    && (forall s: S :: put(s, get(s)) == s)
  }

  lemma {:induction false} PairsFold<S(!new)>(text: Text, number: nat, pairs: seq<AnyPair>, state: S, step: Step<S>,
                                              get: S -> Attributes, put: (S, Attributes) -> S)
    requires Faithful(text) && PairsFitting(text, pairs) && TakesPairs(text, number, step, get, put)
    ensures Folded(PairsAs(text, number, pairs), state, step) == Some(put(state, AttributesOf(pairs, get(state))))
    decreases |pairs|
  {
    hide PairFits, Nesting, Meaning, EncodedPair, KeyValueOf;
    if pairs != [] {
      PairRead(text, pairs[0]);
      var next := get(state)[pairs[0].key := Meaning(pairs[0].value)];
      PairsFold(text, number, pairs[1..], put(state, next), step, get, put);
      assert PairsAs(text, number, pairs)[1..] == PairsAs(text, number, pairs[1..]);
    }
  }

  lemma {:induction false} EntriesFold(text: Text, number: nat, pairs: seq<AnyPair>, before: Attributes)
    requires Faithful(text) && PairsFitting(text, pairs)
    ensures FoldEntries(text, PairsAs(text, number, pairs), number, 0, before) == Some(AttributesOf(pairs, before))
    decreases |pairs|
  {
    hide PairFits, Nesting, Meaning, EncodedPair, KeyValueOf;
    if pairs != [] {
      PairRead(text, pairs[0]);
      EntriesFold(text, number, pairs[1..], before[pairs[0].key := Meaning(pairs[0].value)]);
      assert PairsAs(text, number, pairs)[1..] == PairsAs(text, number, pairs[1..]);
    }
  }

  /** A step's effect, written out for a first field. */
  lemma FoldFirst<S>(first: Field, rest: seq<Field>, state: S, step: Step<S>)
    ensures Folded([first] + rest, state, step)
            == match step(state, first) case None => None case Some(next) => Folded(rest, next, step)
  {
    assert ([first] + rest)[1..] == rest;
  }

  lemma FoldNone<S>(state: S, step: Step<S>)
    ensures Folded([], state, step) == Some(state)
  {
  }

  // ---------------------------------------------------------------- events and links

  lemma EventTakesPairs(text: Text)
    ensures TakesPairs(text, 3, EventStep(text), (p: EventParts) => p.attributes,
                       (p: EventParts, a: Attributes) => p.(attributes := a))
  {
    hide WithPair;
  }

  lemma EventDecodes(text: Text, msg: EventMsg)
    requires Faithful(text) && AllEncodable(EventFields(text, msg)) && PairsFitting(text, msg.pairs)
    ensures EventOf(text, Encoded(EventFields(text, msg)))
            == Some(Event(msg.name, msg.timestamp, AttributesOf(msg.pairs, map[])))
  {
    FieldsReadBack(EventFields(text, msg));
    EventFolds(text, msg);
    hide Fields, Encoded, Folded, EventFields, PairsFitting, AttributesOf, EventStep, AllEncodable;
  }

  lemma EventHeadSteps(text: Text, msg: EventMsg)
    requires Faithful(text)
    ensures var step := EventStep(text);
            && step(EventParts([], None, map[]), Fixed64(1, msg.timestamp))
               == Some(EventParts([], Some(msg.timestamp), map[]))
            && step(EventParts([], Some(msg.timestamp), map[]), Delimited(2, text.encode(msg.name)))
               == Some(EventParts(msg.name, Some(msg.timestamp), map[]))
  {
    hide WithPair;
  }

  lemma EventFolds(text: Text, msg: EventMsg)
    requires Faithful(text) && PairsFitting(text, msg.pairs)
    ensures Folded(EventFields(text, msg), EventParts([], None, map[]), EventStep(text))
            == Some(EventParts(msg.name, Some(msg.timestamp), AttributesOf(msg.pairs, map[])))
  {
    var start, pairs := EventParts([], None, map[]), PairsAs(text, 3, msg.pairs);
    var time, name := Fixed64(1, msg.timestamp), Delimited(2, text.encode(msg.name));
    EventTakesPairs(text);
    EventHeadSteps(text, msg);
    assert EventFields(text, msg) == [time] + ([name] + pairs);
    hide Folded, PairsFitting, PairsAs, AttributesOf, WithPair, TakesPairs, EventStep, EventFields, Faithful;
    FoldFirst(time, [name] + pairs, start, EventStep(text));
    FoldFirst(name, pairs, EventParts([], Some(msg.timestamp), map[]), EventStep(text));
    PairsFold(text, 3, msg.pairs, EventParts(msg.name, Some(msg.timestamp), map[]), EventStep(text),
              (p: EventParts) => p.attributes, (p: EventParts, a: Attributes) => p.(attributes := a));
  }

  lemma LinkTakesPairs(text: Text)
    ensures TakesPairs(text, 4, LinkStep(text), (p: LinkParts) => p.attributes,
                       (p: LinkParts, a: Attributes) => p.(attributes := a))
  {
    hide WithPair;
  }

  lemma LinkDecodes(text: Text, msg: LinkMsg)
    requires Faithful(text) && AllEncodable(LinkFields(text, msg)) && PairsFitting(text, msg.pairs)
    ensures LinkOf(text, Encoded(LinkFields(text, msg)))
            == Some(Link(Hex(msg.traceId), Hex(msg.spanId), AttributesOf(msg.pairs, map[])))
  {
    FieldsReadBack(LinkFields(text, msg));
    LinkFolds(text, msg);
    hide Fields, Encoded, Folded, LinkFields, PairsFitting, AttributesOf, LinkStep, AllEncodable, Hex;
  }

  lemma LinkHeadSteps(text: Text, msg: LinkMsg)
    ensures var step := LinkStep(text);
            && step(LinkParts(None, None, map[]), Delimited(1, msg.traceId))
               == Some(LinkParts(Some(Hex(msg.traceId)), None, map[]))
            && step(LinkParts(Some(Hex(msg.traceId)), None, map[]), Delimited(2, msg.spanId))
               == Some(LinkParts(Some(Hex(msg.traceId)), Some(Hex(msg.spanId)), map[]))
  {
    hide WithPair, Hex;
  }

  lemma LinkFolds(text: Text, msg: LinkMsg)
    requires Faithful(text) && PairsFitting(text, msg.pairs)
    ensures Folded(LinkFields(text, msg), LinkParts(None, None, map[]), LinkStep(text))
            == Some(LinkParts(Some(Hex(msg.traceId)), Some(Hex(msg.spanId)), AttributesOf(msg.pairs, map[])))
  {
    var start, pairs := LinkParts(None, None, map[]), PairsAs(text, 4, msg.pairs);
    var trace, span := Delimited(1, msg.traceId), Delimited(2, msg.spanId);
    LinkTakesPairs(text);
    LinkHeadSteps(text, msg);
    assert LinkFields(text, msg) == [trace] + ([span] + pairs);
    hide Folded, PairsFitting, PairsAs, AttributesOf, WithPair, TakesPairs, LinkStep, LinkFields, Hex, Faithful;
    FoldFirst(trace, [span] + pairs, start, LinkStep(text));
    FoldFirst(span, pairs, LinkParts(Some(Hex(msg.traceId)), None, map[]), LinkStep(text));
    PairsFold(text, 4, msg.pairs, LinkParts(Some(Hex(msg.traceId)), Some(Hex(msg.spanId)), map[]), LinkStep(text),
              (p: LinkParts) => p.attributes, (p: LinkParts, a: Attributes) => p.(attributes := a));
  }

  // ---------------------------------------------------------------- spans

  lemma SpanTakesPairs(text: Text)
    ensures TakesPairs(text, 9, SpanStep(text), (p: SpanParts) => p.attributes,
                       (p: SpanParts, a: Attributes) => p.(attributes := a))
  {
    hide WithPair, EventOf, LinkOf, Hex;
  }

  lemma {:induction false} EventsFold(text: Text, events: seq<EventMsg>, parts: SpanParts)
    requires Faithful(text)
    requires forall i :: 0 <= i < |events| ==>
               AllEncodable(EventFields(text, events[i])) && PairsFitting(text, events[i].pairs)
    ensures Folded(EventsAs(text, events), parts, SpanStep(text))
            == Some(parts.(events := parts.events + EventsMeant(events)))
    decreases |events|
  {
    hide AllEncodable, PairsFitting, EventFields, Encoded, WithPair, EventOf, LinkOf, Hex, AttributesOf, Folded;
    if events == [] {
      FoldNone(parts, SpanStep(text));
      assert parts.events + [] == parts.events;
    } else {
      var first := Delimited(11, Encoded(EventFields(text, events[0])));
      var meant := Event(events[0].name, events[0].timestamp, AttributesOf(events[0].pairs, map[]));
      EventDecodes(text, events[0]);
      var next := parts.(events := parts.events + [meant]);
      FoldFirst(first, EventsAs(text, events[1..]), parts, SpanStep(text));
      EventsFold(text, events[1..], next);
      assert parts.events + [meant] + EventsMeant(events[1..]) == parts.events + EventsMeant(events);
    }
  }

  lemma {:induction false} LinksFold(text: Text, links: seq<LinkMsg>, parts: SpanParts)
    requires Faithful(text)
    requires forall i :: 0 <= i < |links| ==>
               AllEncodable(LinkFields(text, links[i])) && PairsFitting(text, links[i].pairs)
    ensures Folded(LinksAs(text, links), parts, SpanStep(text))
            == Some(parts.(links := parts.links + LinksMeant(links)))
    decreases |links|
  {
    hide AllEncodable, PairsFitting, LinkFields, Encoded, WithPair, EventOf, LinkOf, Hex, AttributesOf, Folded;
    if links == [] {
      FoldNone(parts, SpanStep(text));
      assert parts.links + [] == parts.links;
    } else {
      var first := Delimited(13, Encoded(LinkFields(text, links[0])));
      var meant := Link(Hex(links[0].traceId), Hex(links[0].spanId), AttributesOf(links[0].pairs, map[]));
      LinkDecodes(text, links[0]);
      var next := parts.(links := parts.links + [meant]);
      FoldFirst(first, LinksAs(text, links[1..]), parts, SpanStep(text));
      LinksFold(text, links[1..], next);
      assert parts.links + [meant] + LinksMeant(links[1..]) == parts.links + LinksMeant(links);
    }
  }

  lemma HeadFold(text: Text, msg: SpanMsg)
    requires Faithful(text)
    ensures Folded(HeadFields(text, msg), NO_SPAN, SpanStep(text))
            == Some(SpanParts(Some(Hex(msg.traceId)), Some(Hex(msg.spanId)), Hex(msg.parent), msg.name, Some(msg.start),
                              Some(msg.end), None, map[], [], []))
  {
    hide Hex, WithPair, EventOf, LinkOf, Folded;
    var h := HeadFields(text, msg);
    var step := SpanStep(text);
    assert h == [h[0]] + ([h[1]] + ([h[2]] + ([h[3]] + ([h[4]] + ([h[5]] + [])))));
    var p1 := NO_SPAN.(traceId := Some(Hex(msg.traceId)));
    var p2 := p1.(spanId := Some(Hex(msg.spanId)));
    var p3 := p2.(parent := Hex(msg.parent));
    var p4 := p3.(name := msg.name);
    var p5 := p4.(start := Some(msg.start));
    var p6 := p5.(end := Some(msg.end));
    FoldFirst(h[5], [], p5, step);
    FoldNone(p6, step);
    FoldFirst(h[4], [h[5]] + [], p4, step);
    FoldFirst(h[3], [h[4]] + ([h[5]] + []), p3, step);
    FoldFirst(h[2], [h[3]] + ([h[4]] + ([h[5]] + [])), p2, step);
    FoldFirst(h[1], [h[2]] + ([h[3]] + ([h[4]] + ([h[5]] + []))), p1, step);
    FoldFirst(h[0], [h[1]] + ([h[2]] + ([h[3]] + ([h[4]] + ([h[5]] + [])))), NO_SPAN, step);
  }

  lemma CodeFold(text: Text, code: Option<nat>, parts: SpanParts)
    requires code.Some? ==> code.value < MODULUS
    requires parts.code.None?
    ensures Folded(CodeFields(code), parts, SpanStep(text)) == Some(parts.(code := code))
  {
    FoldNone(parts, SpanStep(text));
    if code.None? {
      assert parts.(code := code) == parts;
    } else {
      CodeReads(code.value);
      hide Fields, Encoded, Hex, WithPair, EventOf, LinkOf, Folded, Swept;
      var field := Delimited(15, Encoded([Varint(3, code.value)]));
      assert CodeFields(code) == [field] + [];
      FoldFirst(field, [], parts, SpanStep(text));
      FoldNone(parts.(code := code), SpanStep(text));
    }
  }

  lemma CodeReads(code: nat)
    requires code < MODULUS
    ensures Swept(Encoded([Varint(3, code)]), None, CodeStep()) == Some(Some(code))
  {
    var inner := [Varint(3, code)];
    FieldsReadBack(inner);
    hide Fields, Encoded, Folded;
    var none: Option<nat> := None;
    assert inner == [Varint(3, code)] + [];
    FoldFirst(Varint(3, code), [], none, CodeStep());
    FoldNone(Some(code), CodeStep());
  }

  /** A span's own fields give the parts meant. */
  lemma SpanPartsDecode(text: Text, msg: SpanMsg)
    requires Faithful(text) && SpanFits(text, msg)
    ensures Swept(Encoded(SpanFields(text, msg)), NO_SPAN, SpanStep(text)) == Some(PartsMeant(msg))
  {
    var step := SpanStep(text);
    FieldsReadBack(SpanFields(text, msg));
    HeadFold(text, msg);
    SpanTakesPairs(text);
    var p1 := SpanParts(Some(Hex(msg.traceId)), Some(Hex(msg.spanId)), Hex(msg.parent), msg.name, Some(msg.start),
                        Some(msg.end), None, map[], [], []);
    var p2 := p1.(attributes := AttributesOf(msg.pairs, map[]));
    var p3 := p2.(events := EventsMeant(msg.events));
    var p4 := p3.(links := LinksMeant(msg.links));
    var links, codes := LinksAs(text, msg.links), CodeFields(msg.code);
    var events, pairs := EventsAs(text, msg.events), PairsAs(text, 9, msg.pairs);
    assert [] + EventsMeant(msg.events) == EventsMeant(msg.events)
           && [] + LinksMeant(msg.links) == LinksMeant(msg.links);
    hide Fields, Encoded, Hex, Folded, TakesPairs, SpanStep, PairsFitting, AllEncodable, HeadFields, AttributesOf,
         EventsMeant, LinksMeant, PairsAs, EventsAs, LinksAs, CodeFields;
    PairsFold(text, 9, msg.pairs, p1, step, (p: SpanParts) => p.attributes,
              (p: SpanParts, a: Attributes) => p.(attributes := a));
    EventsFold(text, msg.events, p2);
    LinksFold(text, msg.links, p3);
    CodeFold(text, msg.code, p4);
    FoldedJoin(HeadFields(text, msg), pairs + (events + (links + codes)), NO_SPAN, step);
    FoldedJoin(pairs, events + (links + codes), p1, step);
    FoldedJoin(events, links + codes, p2, step);
    FoldedJoin(links, codes, p3, step);
  }

  // ---------------------------------------------------------------- scopes, resources and the request

  lemma SpanDecodes(text: Text, msg: SpanMsg, service: string, tenant: string, scope: Attributes)
    requires Faithful(text) && SpanFits(text, msg)
    ensures SpanOf(text, Encoded(SpanFields(text, msg)), service, tenant, scope)
            == Finished(PartsMeant(msg), service, tenant, scope)
  {
    hide *;
    SpanPartsDecode(text, msg);
    SpanIsParts(text, Encoded(SpanFields(text, msg)), service, tenant, scope);
  }

  lemma SpanIsParts(text: Text, bytes: Bytes, service: string, tenant: string, scope: Attributes)
    requires Swept(bytes, NO_SPAN, SpanStep(text)).Some?
    ensures SpanOf(text, bytes, service, tenant, scope)
            == Finished(Swept(bytes, NO_SPAN, SpanStep(text)).value, service, tenant, scope)
  {
    hide Swept, Finished, SpanStep;
  }

  lemma {:induction false} SpansFold(text: Text, spans: seq<SpanMsg>, service: string, tenant: string,
                                     scope: Attributes, before: seq<Span>)
    requires Faithful(text) && forall i :: 0 <= i < |spans| ==> SpanFits(text, spans[i])
    ensures Folded(SpansAs(text, spans), before, SpansStep(text, service, tenant, scope))
            == match SpansMeant(spans, service, tenant, scope) case None => None case Some(rest) => Some(before + rest)
    decreases |spans|
  {
    hide Folded, SpanFits, SpanFields, Encoded, SpanOf, Finished, PartsMeant;
    var step := SpansStep(text, service, tenant, scope);
    if spans == [] {
      FoldNone(before, step);
      assert before + [] == before;
    } else {
      var first := Delimited(2, Encoded(SpanFields(text, spans[0])));
      SpanDecodes(text, spans[0], service, tenant, scope);
      FoldFirst(first, SpansAs(text, spans[1..]), before, step);
      var meant := Finished(PartsMeant(spans[0]), service, tenant, scope);
      if meant.Some? {
        SpansFold(text, spans[1..], service, tenant, scope, before + [meant.value]);
        var rest := SpansMeant(spans[1..], service, tenant, scope);
        assert rest.Some? ==> before + [meant.value] + rest.value == before + ([meant.value] + rest.value);
      }
    }
  }

  lemma {:induction false} SpansIgnored<S(!new)>(text: Text, spans: seq<SpanMsg>, state: S, step: Step<S>)
    requires Minds(step, 1)
    ensures Folded(SpansAs(text, spans), state, step) == Some(state)
    decreases |spans|
  {
    hide Folded, SpanFields, Encoded;
    if spans == [] {
      FoldNone(state, step);
    } else {
      var first := Delimited(2, Encoded(SpanFields(text, spans[0])));
      assert Ignores(step, first) && step(state, first) == Some(state);
      FoldFirst(first, SpansAs(text, spans[1..]), state, step);
      SpansIgnored(text, spans[1..], state, step);
    }
  }

  lemma ScopeDecodes(text: Text, msg: ScopeMsg, service: string, tenant: string)
    requires Faithful(text) && ScopeFits(text, msg)
    ensures ScopeSpansOf(text, Encoded(ScopeFields(text, msg)), service, tenant)
            == SpansMeant(msg.spans, service, tenant, AttributesOf(msg.pairs, map[]))
  {
    var fields, pairs := ScopeFields(text, msg), PairsAs(text, 3, msg.pairs);
    var scope := AttributesOf(msg.pairs, map[]);
    var none: Attributes := map[];
    var spans: seq<Span> := [];
    FieldsReadBack(fields);
    FieldsReadBack(pairs);
    EntriesFold(text, 3, msg.pairs, none);
    hide Fields, Encoded, Folded, SpanFits, PairsFitting, AllEncodable, AttributesOf, PairsAs, SpanOf, FoldEntries,
         SpansMeant;
    var first := Delimited(1, Encoded(pairs));
    assert fields == [first] + SpansAs(text, msg.spans);
    FoldFirst(first, SpansAs(text, msg.spans), none, ScopeStep(text));
    SpansIgnored(text, msg.spans, scope, ScopeStep(text));
    FoldFirst(first, SpansAs(text, msg.spans), spans, SpansStep(text, service, tenant, scope));
    SpansFold(text, msg.spans, service, tenant, scope, spans);
    assert forall rest: seq<Span> :: spans + rest == rest;
  }

  lemma {:induction false} ScopesFold(text: Text, scopes: seq<ScopeMsg>, service: string, tenant: string,
                                      before: seq<Span>)
    requires Faithful(text) && forall i :: 0 <= i < |scopes| ==> ScopeFits(text, scopes[i])
    ensures Folded(ScopesAs(text, scopes), before, ScopesStep(text, service, tenant))
            == match ScopesMeant(scopes, service, tenant) case None => None case Some(rest) => Some(before + rest)
    decreases |scopes|
  {
    hide Folded, ScopeFits, ScopeFields, Encoded, ScopeSpansOf, SpansMeant;
    var step := ScopesStep(text, service, tenant);
    if scopes == [] {
      FoldNone(before, step);
      assert before + [] == before;
    } else {
      var first := Delimited(2, Encoded(ScopeFields(text, scopes[0])));
      ScopeDecodes(text, scopes[0], service, tenant);
      FoldFirst(first, ScopesAs(text, scopes[1..]), before, step);
      var meant := SpansMeant(scopes[0].spans, service, tenant, AttributesOf(scopes[0].pairs, map[]));
      if meant.Some? {
        ScopesFold(text, scopes[1..], service, tenant, before + meant.value);
        var rest := ScopesMeant(scopes[1..], service, tenant);
        assert rest.Some? ==> before + meant.value + rest.value == before + (meant.value + rest.value);
      }
    }
  }

  lemma {:induction false} ScopesIgnored<S(!new)>(text: Text, scopes: seq<ScopeMsg>, state: S, step: Step<S>)
    requires Minds(step, 1)
    ensures Folded(ScopesAs(text, scopes), state, step) == Some(state)
    decreases |scopes|
  {
    hide Folded, ScopeFields, Encoded;
    if scopes == [] {
      FoldNone(state, step);
    } else {
      var first := Delimited(2, Encoded(ScopeFields(text, scopes[0])));
      assert Ignores(step, first) && step(state, first) == Some(state);
      FoldFirst(first, ScopesAs(text, scopes[1..]), state, step);
      ScopesIgnored(text, scopes[1..], state, step);
    }
  }

  /** What a resource's pairs make of an identity: each name's first string, unless one was there. */
  function Identified(pairs: seq<AnyPair>, identity: Identity): Identity {
    var meant := IdentityMeant(pairs);
    Identity(if identity.service.Some? then identity.service else meant.service,
             if identity.tenant.Some? then identity.tenant else meant.tenant)
  }

  lemma {:induction false} IdentityFold(text: Text, pairs: seq<AnyPair>, identity: Identity)
    requires Faithful(text) && PairsFitting(text, pairs)
    ensures Folded(PairsAs(text, 1, pairs), identity, IdentityStep(text)) == Some(Identified(pairs, identity))
    decreases |pairs|
  {
    hide Folded, PairFits, Nesting, Meaning, EncodedPair, KeyValueOf;
    if pairs == [] {
      FoldNone(identity, IdentityStep(text));
    } else {
      var first := Delimited(1, EncodedPair(text, pairs[0]));
      PairRead(text, pairs[0]);
      FoldFirst(first, PairsAs(text, 1, pairs[1..]), identity, IdentityStep(text));
      NamesDiffer();
      IdentityFold(text, pairs[1..], IdentityStep(text)(identity, first).value);
    }
  }

  lemma NamesDiffer()
    ensures "service.name" != "traza.tenant"
  {
    assert "service.name"[0] == 's' && "traza.tenant"[0] == 't';
  }

  lemma ResourceDecodes(text: Text, msg: ResourceMsg)
    requires Faithful(text) && ResourceFits(text, msg)
    ensures var identity := IdentityMeant(msg.pairs);
            ResourceSpansOf(text, Encoded(ResourceFields(text, msg)))
            == ScopesMeant(msg.scopes, ServiceOf(identity), TenantOf(identity))
  {
    var fields, pairs := ResourceFields(text, msg), PairsAs(text, 1, msg.pairs);
    var identity, none := IdentityMeant(msg.pairs), Identity(None, None);
    var spans: seq<Span> := [];
    FieldsReadBack(fields);
    FieldsReadBack(pairs);
    IdentityFold(text, msg.pairs, none);
    hide Fields, Encoded, Folded, ScopeFits, PairsFitting, AllEncodable, PairsAs, ScopeSpansOf, ScopesMeant, ServiceOf,
         TenantOf, IdentityStep, FirstString;
    var first := Delimited(1, Encoded(pairs));
    assert fields == [first] + ScopesAs(text, msg.scopes);
    FoldFirst(first, ScopesAs(text, msg.scopes), none, ResourceStep(text));
    ScopesIgnored(text, msg.scopes, identity, ResourceStep(text));
    var step := ScopesStep(text, ServiceOf(identity), TenantOf(identity));
    FoldFirst(first, ScopesAs(text, msg.scopes), spans, step);
    ScopesFold(text, msg.scopes, ServiceOf(identity), TenantOf(identity), spans);
    assert forall rest: seq<Span> :: spans + rest == rest;
  }

  lemma {:induction false} RequestFold(text: Text, request: seq<ResourceMsg>, before: seq<Span>)
    requires Faithful(text) && forall i :: 0 <= i < |request| ==> ResourceFits(text, request[i])
    ensures Folded(RequestFields(text, request), before, RequestStep(text))
            == match RequestMeant(request) case None => None case Some(rest) => Some(before + rest)
    decreases |request|
  {
    hide Folded, ResourceFits, ResourceFields, Encoded, ResourceSpansOf, ScopesMeant, ServiceOf, TenantOf,
         IdentityMeant;
    var step := RequestStep(text);
    if request == [] {
      FoldNone(before, step);
      assert before + [] == before;
    } else {
      var first := Delimited(1, Encoded(ResourceFields(text, request[0])));
      ResourceDecodes(text, request[0]);
      FoldFirst(first, RequestFields(text, request[1..]), before, step);
      var identity := IdentityMeant(request[0].pairs);
      var meant := ScopesMeant(request[0].scopes, ServiceOf(identity), TenantOf(identity));
      if meant.Some? {
        RequestFold(text, request[1..], before + meant.value);
        var rest := RequestMeant(request[1..]);
        assert rest.Some? ==> before + meant.value + rest.value == before + (meant.value + rest.value);
      }
    }
  }

  // ---------------------------------------------------------------- what a decoded span has to say

  /** Two lowercase digits a byte. */
  ghost predicate HexSays(text: string, bytes: Bytes) {
    |text| == 2 * |bytes| && forall i :: 0 <= i < |bytes| ==> DigitsSay(text, bytes[i], i)
  }

  predicate DigitsSay(text: string, byte: Byte, i: nat)
    requires 2 * i + 1 < |text|
  {
    var digits := "0123456789abcdef";
    text[2 * i] == digits[byte / 16] && text[2 * i + 1] == digits[byte % 16]
  }

  /** The value under a key: of several pairs the last. */
  function LastNamed(pairs: seq<AnyPair>, key: string): Option<Value> {
    if pairs == [] then None
    else if pairs[|pairs| - 1].key == key then Some(Meaning(pairs[|pairs| - 1].value))
    else LastNamed(pairs[..|pairs| - 1], key)
  }

  /** A map with the pairs' values, and under keys they do not name those of the pairs beneath. */
  ghost predicate AttributesSay(attributes: Attributes, pairs: seq<AnyPair>, beneath: seq<AnyPair>) {
    forall key ::
      var value := if LastNamed(pairs, key).Some? then LastNamed(pairs, key) else LastNamed(beneath, key);
      (key in attributes <==> value.Some?) && (value.Some? ==> attributes[key] == value.value)
  }

  ghost predicate EventSays(event: Event, msg: EventMsg) {
    event.name == msg.name && event.timestamp == msg.timestamp && AttributesSay(event.attributes, msg.pairs, [])
  }

  ghost predicate LinkSays(link: Link, msg: LinkMsg) {
    && HexSays(link.traceId, msg.traceId) && HexSays(link.spanId, msg.spanId)
    && AttributesSay(link.attributes, msg.pairs, [])
  }

  /** The links that name a span. */
  function Naming(links: seq<LinkMsg>): seq<LinkMsg> {
    if links == [] then []
    else (if |links[0].traceId| > 0 && |links[0].spanId| > 0 then [links[0]] else []) + Naming(links[1..])
  }

  /** A span as exported: with the pairs of its resource and of its scope. */
  datatype Exported = Exported(resource: seq<AnyPair>, scope: seq<AnyPair>, span: SpanMsg)

  /** What a decoded span has to say, field by field. */
  ghost predicate Says(span: Span, e: Exported) {
    && HexSays(span.traceId, e.span.traceId) && HexSays(span.spanId, e.span.spanId)
    && (span.parent.None? <==> |e.span.parent| == 0)
    && (span.parent.Some? ==> HexSays(span.parent.value, e.span.parent))
    && span.name == e.span.name && span.start == e.span.start && span.end == e.span.end
    && (span.status == StatusOk <==> e.span.code == Some(1)) && (span.status == StatusError <==> e.span.code == Some(2))
    && ServiceSays(span.service, e.resource) && TenantSays(span.tenant, e.resource)
    && AttributesSay(span.attributes, e.span.pairs, e.scope)
    && |span.events| == |e.span.events|
    && (forall i :: 0 <= i < |span.events| ==> EventSays(span.events[i], e.span.events[i]))
    && |span.links| == |Naming(e.span.links)|
    && (forall i :: 0 <= i < |span.links| ==> LinkSays(span.links[i], Naming(e.span.links)[i]))
  }

  /** A string under a name that no earlier pair of the name has. */
  predicate FirstAt(pairs: seq<AnyPair>, name: string, i: nat) {
    && i < |pairs| && pairs[i].key == name && pairs[i].value.AStr?
    && forall j :: 0 <= j < i ==> pairs[j].key != name || !HoldsText(pairs[j].value)
  }

  /** The values that come as text: strings, and bytes in hex. */
  predicate HoldsText(any: Any) { any.AStr? || any.ABytes? }

  ghost predicate NameSays(text: string, pairs: seq<AnyPair>, name: string, absent: string) {
    || (exists i: nat :: FirstAt(pairs, name, i) && text == pairs[i].value.text)
    || (exists i: nat :: FirstBytesAt(pairs, name, i) && HexSays(text, pairs[i].value.bytes))
    || (text == absent && forall i :: 0 <= i < |pairs| && pairs[i].key == name ==> !HoldsText(pairs[i].value))
  }

  predicate FirstBytesAt(pairs: seq<AnyPair>, name: string, i: nat) {
    && i < |pairs| && pairs[i].key == name && pairs[i].value.ABytes?
    && forall j :: 0 <= j < i ==> pairs[j].key != name || !HoldsText(pairs[j].value)
  }

  ghost predicate ServiceSays(service: string, resource: seq<AnyPair>) {
    NameSays(service, resource, "service.name", "unknown_service")
  }

  ghost predicate TenantSays(tenant: string, resource: seq<AnyPair>) {
    NameSays(tenant, resource, "traza.tenant", "")
  }

  // ---------------------------------------------------------------- the spans of a request, in order

  function SpansExported(resource: seq<AnyPair>, scope: seq<AnyPair>, spans: seq<SpanMsg>): seq<Exported> {
    if spans == [] then [] else [Exported(resource, scope, spans[0])] + SpansExported(resource, scope, spans[1..])
  }

  function ScopesExported(resource: seq<AnyPair>, scopes: seq<ScopeMsg>): seq<Exported> {
    if scopes == [] then []
    else SpansExported(resource, scopes[0].pairs, scopes[0].spans) + ScopesExported(resource, scopes[1..])
  }

  function AllExported(request: seq<ResourceMsg>): seq<Exported> {
    if request == [] then [] else ScopesExported(request[0].pairs, request[0].scopes) + AllExported(request[1..])
  }

  predicate Nameless(e: Exported) { |e.span.traceId| == 0 || |e.span.spanId| == 0 }

  /** Refused exactly when some span has an empty id; or else span by span what was exported, in order. */
  ghost predicate Answers(decoded: Option<seq<Span>>, exported: seq<Exported>) {
    && (decoded.None? <==> exists i :: 0 <= i < |exported| && Nameless(exported[i]))
    && (decoded.Some? ==> |decoded.value| == |exported|
                          && forall i :: 0 <= i < |exported| ==> Says(decoded.value[i], exported[i]))
  }

  // ---------------------------------------------------------------- the meaning says it

  lemma {:induction false} HexIsSaid(bytes: Bytes)
    ensures HexSays(Hex(bytes), bytes) && (Hex(bytes) == [] <==> |bytes| == 0)
  {
    if bytes != [] {
      var n := |bytes| - 1;
      HexIsSaid(bytes[..n]);
      HexDigitIs(bytes[n] / 16);
      HexDigitIs(bytes[n] % 16);
      var front, text := Hex(bytes[..n]), Hex(bytes);
      assert text == front + [HexDigit(bytes[n] / 16), HexDigit(bytes[n] % 16)];
      forall i | 0 <= i < |bytes|
        ensures DigitsSay(text, bytes[i], i)
      {
        if i < n {
          assert DigitsSay(front, bytes[..n][i], i);
          assert text[2 * i] == front[2 * i] && text[2 * i + 1] == front[2 * i + 1];
        }
      }
    }
  }

  lemma HexDigitIs(n: nat)
    requires n < 16
    ensures HexDigit(n) == "0123456789abcdef"[n]
  {
  }

  lemma {:induction false} AttributesLookup(pairs: seq<AnyPair>, before: Attributes, key: string)
    ensures var value := LastNamed(pairs, key); var attributes := AttributesOf(pairs, before);
            if value.Some? then key in attributes && attributes[key] == value.value
            else (key in attributes <==> key in before) && (key in before ==> attributes[key] == before[key])
  {
    hide Meaning;
    if pairs != [] {
      AttributesLookup(pairs[1..], before[pairs[0].key := Meaning(pairs[0].value)], key);
      LastNamedFirst(pairs, key);
    }
  }

  lemma {:induction false} LastNamedFirst(pairs: seq<AnyPair>, key: string)
    requires pairs != []
    ensures LastNamed(pairs, key)
            == if LastNamed(pairs[1..], key).Some? then LastNamed(pairs[1..], key)
               else if pairs[0].key == key then Some(Meaning(pairs[0].value)) else None
  {
    hide Meaning;
    if |pairs| > 1 {
      var front := pairs[..|pairs| - 1];
      LastNamedFirst(front, key);
      assert front[1..] == pairs[1..][..|pairs| - 2];
      assert pairs[1..][|pairs| - 2] == pairs[|pairs| - 1];
    }
  }

  lemma AttributesAreSaid(pairs: seq<AnyPair>, beneath: seq<AnyPair>)
    ensures AttributesSay(AttributesOf(beneath, map[]) + AttributesOf(pairs, map[]), pairs, beneath)
    ensures AttributesSay(AttributesOf(pairs, map[]), pairs, [])
  {
    hide LastNamed, AttributesOf;
    NothingNamed();
    forall key
      ensures var value := LastNamed(pairs, key); var attributes := AttributesOf(pairs, map[]);
              (key in attributes <==> value.Some?) && (value.Some? ==> attributes[key] == value.value)
      ensures var value := LastNamed(beneath, key); var attributes := AttributesOf(beneath, map[]);
              (key in attributes <==> value.Some?) && (value.Some? ==> attributes[key] == value.value)
    {
      AttributesLookup(pairs, map[], key);
      AttributesLookup(beneath, map[], key);
    }
  }

  lemma NothingNamed()
    ensures forall key :: LastNamed([], key) == None
  {
  }

  lemma {:induction false} EventsAreSaid(events: seq<EventMsg>)
    ensures |EventsMeant(events)| == |events|
    ensures forall i :: 0 <= i < |events| ==> EventSays(EventsMeant(events)[i], events[i])
  {
    hide AttributesOf, AttributesSay;
    if events != [] {
      EventsAreSaid(events[1..]);
      AttributesAreSaid(events[0].pairs, []);
    }
  }

  lemma {:induction false} LinksAreSaid(links: seq<LinkMsg>)
    ensures var meant := Meaningful(LinksMeant(links));
            && |meant| == |Naming(links)|
            && forall i :: 0 <= i < |meant| ==> LinkSays(meant[i], Naming(links)[i])
  {
    hide LinkSays, Hex;
    if links != [] {
      LinksAreSaid(links[1..]);
      var first := LinkMeant(links[0]);
      LinkIsSaid(links[0]);
      MeaningfulFirst(first, LinksMeant(links[1..]));
      hide Meaningful, LinkMeant;
      assert LinksMeant(links) == [first] + LinksMeant(links[1..]);
      hide LinksMeant;
    }
  }

  lemma LinkIsSaid(msg: LinkMsg)
    ensures var link := LinkMeant(msg);
            && LinkSays(link, msg)
            && (link.traceId == [] <==> |msg.traceId| == 0) && (link.spanId == [] <==> |msg.spanId| == 0)
  {
    hide AttributesOf, AttributesSay, Hex;
    AttributesAreSaid(msg.pairs, []);
    HexIsSaid(msg.traceId);
    HexIsSaid(msg.spanId);
  }

  lemma {:induction false} MeaningfulFirst(first: Link, rest: seq<Link>)
    ensures Meaningful([first] + rest)
            == (if first.traceId == [] || first.spanId == [] then [] else [first]) + Meaningful(rest)
  {
    var all := [first] + rest;
    if rest == [] {
      assert all[..0] == [];
    } else {
      assert all[..|all| - 1] == [first] + rest[..|rest| - 1];
      MeaningfulFirst(first, rest[..|rest| - 1]);
    }
  }

  lemma {:induction false} NameIsSaid(pairs: seq<AnyPair>, name: string, absent: string)
    ensures NameSays(FirstString(pairs, name).GetOr(absent), pairs, name, absent)
    ensures FirstString(pairs, name).None? <==> forall i :: 0 <= i < |pairs| && pairs[i].key == name ==>
                                                  !HoldsText(pairs[i].value)
  {
    hide Hex, HexSays;
    if pairs != [] {
      var rest := pairs[1..];
      assert forall i :: 0 <= i < |rest| ==> rest[i] == pairs[i + 1];
      NameIsSaid(rest, name, absent);
      if pairs[0].key == name && HoldsText(pairs[0].value) {
        FirstIsSaid(pairs, name, absent);
      } else {
        LaterIsSaid(pairs, name, absent, FirstString(rest, name).GetOr(absent));
      }
    }
  }

  lemma FirstIsSaid(pairs: seq<AnyPair>, name: string, absent: string)
    requires pairs != [] && pairs[0].key == name && HoldsText(pairs[0].value)
    ensures NameSays(FirstString(pairs, name).GetOr(absent), pairs, name, absent)
    ensures FirstString(pairs, name).Some?
  {
    hide Hex, HexSays;
    if pairs[0].value.AStr? {
      assert FirstAt(pairs, name, 0);
    } else {
      HexIsSaid(pairs[0].value.bytes);
      assert FirstBytesAt(pairs, name, 0);
    }
  }

  lemma LaterIsSaid(pairs: seq<AnyPair>, name: string, absent: string, text: string)
    requires pairs != [] && (pairs[0].key == name ==> !HoldsText(pairs[0].value))
    requires NameSays(text, pairs[1..], name, absent)
    ensures NameSays(text, pairs, name, absent)
  {
    hide HexSays;
    var rest := pairs[1..];
    assert forall i :: 0 <= i < |rest| ==> rest[i] == pairs[i + 1];
    if i: nat :| FirstAt(rest, name, i) && text == rest[i].value.text {
      LaterAt(pairs, name, i + 1);
      assert FirstAt(pairs, name, i + 1);
    } else if i: nat :| FirstBytesAt(rest, name, i) && HexSays(text, rest[i].value.bytes) {
      LaterAt(pairs, name, i + 1);
      assert FirstBytesAt(pairs, name, i + 1);
    } else {
      forall i | 0 <= i < |pairs| && pairs[i].key == name
        ensures !HoldsText(pairs[i].value)
      {
        assert i > 0 ==> rest[i - 1] == pairs[i];
      }
    }
  }

  lemma LaterAt(pairs: seq<AnyPair>, name: string, i: nat)
    requires 0 < i < |pairs| && (pairs[0].key == name ==> !HoldsText(pairs[0].value))
    requires forall j :: 0 <= j < i - 1 ==> pairs[1..][j].key != name || !HoldsText(pairs[1..][j].value)
    ensures forall j :: 0 <= j < i ==> pairs[j].key != name || !HoldsText(pairs[j].value)
  {
    forall j | 0 <= j < i
      ensures pairs[j].key != name || !HoldsText(pairs[j].value)
    {
      assert j > 0 ==> pairs[1..][j - 1] == pairs[j];
    }
  }

  /** One span: refused exactly when an id of it is empty, and saying what it has to otherwise. */
  lemma SpanIsSaid(e: Exported)
    ensures var identity := IdentityMeant(e.resource);
            var span := Finished(PartsMeant(e.span), ServiceOf(identity), TenantOf(identity),
                                 AttributesOf(e.scope, map[]));
            (span.None? <==> Nameless(e)) && (span.Some? ==> Says(span.value, e))
  {
    HexIsSaid(e.span.traceId);
    HexIsSaid(e.span.spanId);
    HexIsSaid(e.span.parent);
    NameIsSaid(e.resource, "service.name", "unknown_service");
    NameIsSaid(e.resource, "traza.tenant", "");
    AttributesAreSaid(e.span.pairs, e.scope);
    EventsAreSaid(e.span.events);
    LinksAreSaid(e.span.links);
    hide Hex, HexSays, NameSays, AttributesSay, AttributesOf, EventsMeant, LinksMeant, Meaningful, Naming, EventSays,
         LinkSays, FirstString, LastNamed;
  }

  lemma {:induction false} SpansAreSaid(resource: seq<AnyPair>, scope: seq<AnyPair>, spans: seq<SpanMsg>)
    ensures var identity := IdentityMeant(resource);
            Answers(SpansMeant(spans, ServiceOf(identity), TenantOf(identity), AttributesOf(scope, map[])),
                    SpansExported(resource, scope, spans))
  {
    hide Finished, PartsMeant, IdentityMeant, ServiceOf, TenantOf, AttributesOf, Says, Nameless;
    if spans != [] {
      var first := Exported(resource, scope, spans[0]);
      SpanIsSaid(first);
      SpansAreSaid(resource, scope, spans[1..]);
      var identity := IdentityMeant(resource);
      var one := Finished(PartsMeant(spans[0]), ServiceOf(identity), TenantOf(identity), AttributesOf(scope, map[]));
      var more := SpansMeant(spans[1..], ServiceOf(identity), TenantOf(identity), AttributesOf(scope, map[]));
      OneAnswers(one, first);
      AnswersJoin(if one.Some? then Some([one.value]) else None, [first], more,
                  SpansExported(resource, scope, spans[1..]));
    }
  }

  lemma OneAnswers(span: Option<Span>, e: Exported)
    requires (span.None? <==> Nameless(e)) && (span.Some? ==> Says(span.value, e))
    ensures Answers(if span.Some? then Some([span.value]) else None, [e])
  {
    hide Says, Nameless;
    assert [e][0] == e;
  }

  lemma AnswersJoin(left: Option<seq<Span>>, front: seq<Exported>, right: Option<seq<Span>>, back: seq<Exported>)
    requires Answers(left, front) && Answers(right, back)
    ensures Answers(if left.Some? && right.Some? then Some(left.value + right.value) else None, front + back)
  {
    hide Says, Nameless;
    var all := front + back;
    if left.None? {
      var i :| 0 <= i < |front| && Nameless(front[i]);
      assert Nameless(all[i]);
    } else if right.None? {
      var i :| 0 <= i < |back| && Nameless(back[i]);
      assert Nameless(all[|front| + i]);
    }
  }

  lemma {:induction false} ScopesAreSaid(resource: seq<AnyPair>, scopes: seq<ScopeMsg>)
    ensures var identity := IdentityMeant(resource);
            Answers(ScopesMeant(scopes, ServiceOf(identity), TenantOf(identity)), ScopesExported(resource, scopes))
  {
    hide IdentityMeant, ServiceOf, TenantOf, AttributesOf, SpansMeant, SpansExported, Says, Nameless;
    if scopes != [] {
      var identity, scope := IdentityMeant(resource), scopes[0];
      SpansAreSaid(resource, scope.pairs, scope.spans);
      ScopesAreSaid(resource, scopes[1..]);
      AnswersJoin(SpansMeant(scope.spans, ServiceOf(identity), TenantOf(identity), AttributesOf(scope.pairs, map[])),
                  SpansExported(resource, scope.pairs, scope.spans),
                  ScopesMeant(scopes[1..], ServiceOf(identity), TenantOf(identity)),
                  ScopesExported(resource, scopes[1..]));
    }
  }

  lemma {:induction false} RequestIsSaid(request: seq<ResourceMsg>)
    ensures Answers(RequestMeant(request), AllExported(request))
  {
    hide IdentityMeant, ServiceOf, TenantOf, ScopesMeant, ScopesExported, Says, Nameless;
    if request != [] {
      var identity := IdentityMeant(request[0].pairs);
      ScopesAreSaid(request[0].pairs, request[0].scopes);
      RequestIsSaid(request[1..]);
      AnswersJoin(ScopesMeant(request[0].scopes, ServiceOf(identity), TenantOf(identity)),
                  ScopesExported(request[0].pairs, request[0].scopes), RequestMeant(request[1..]),
                  AllExported(request[1..]));
    }
  }

  /** Decoding an encoded request gives its spans in order, each saying field by field what was exported, and refuses
      the request exactly when one of them has an empty id. */
  lemma RequestDecodes(text: Text, request: seq<ResourceMsg>)
    requires Faithful(text) && RequestFits(text, request)
    ensures Answers(SpansOf(text, Encoded(RequestFields(text, request))), AllExported(request))
  {
    RequestIsSaid(request);
    var none: seq<Span> := [];
    FieldsReadBack(RequestFields(text, request));
    hide Fields, Encoded, Folded, RequestMeant, ResourceFits, AllExported, Answers;
    RequestFold(text, request, none);
    assert forall rest: seq<Span> :: none + rest == rest;
  }
}

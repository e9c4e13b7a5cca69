/** Erasure subjects, the mask over pending erasures and payload redaction (`src/erasure.rs`): the mask hides a
    span exactly when some pending erasure is due to act on it, and redaction removes one payload reference and
    nothing else. */
module Erasure {
  import opened Common
  import opened CanonicalJson

  // ---------------------------------------------------------------- spans

  type Key = (string, string, string)
  type Attributes = map<string, Json>

  /** A span as erasure sees it: its key and the attribute maps that may carry payload references. */
  datatype Span = Span(tenant: string, traceId: string, spanId: string, attributes: Attributes, events: seq<Attributes>,
                       links: seq<Attributes>)
  {
    function Key(): Key { (tenant, traceId, spanId) }

    function PayloadMaps(): seq<Attributes> { [attributes] + events + links }
  }

  /** How a span's attributes resolve to a session; its insides are not modelled. */
  type Sessions = Attributes -> Option<string>

  const PAYLOAD_KEY: string := "$payload"
  const ERASED: string := "erased"
  const BYTES: string := "bytes"

  // ---------------------------------------------------------------- payload references

  function Find(members: seq<Member>, key: string): Option<Json> {
    if members == [] then None else if members[0].key == key then Some(members[0].value) else Find(members[1..], key)
  }

  /** A field of an object; anything else has no fields. */
  function Get(json: Json, key: string): Option<Json> {
    if json.Obj? then Find(json.members, key) else None
  }

  /** The payload reference a value holds, marker or not. */
  function Held(value: Json): Option<string> {
    var field := Get(value, PAYLOAD_KEY);
    if field.Some? && field.value.Str? then Some(field.value.text) else None
  }

  predicate IsMarker(value: Json) { Get(value, ERASED) == Some(Bool(true)) }

  predicate Unredacted(value: Json, reference: string) { Held(value) == Some(reference) && !IsMarker(value) }

  predicate PayloadUnredacted(span: Span, reference: string) {
    exists i :: 0 <= i < |span.PayloadMaps()| && MapUnredacted(span.PayloadMaps()[i], reference)
  }

  predicate MapUnredacted(attributes: Attributes, reference: string) {
    exists k :: k in attributes && Unredacted(attributes[k], reference)
  }

  function RefsOfMap(attributes: Attributes): set<string> {
    set k | k in attributes && !IsMarker(attributes[k]) && Held(attributes[k]).Some? :: Held(attributes[k]).value
  }

  function RefsOfMaps(maps: seq<Attributes>): set<string> {
    if maps == [] then {} else RefsOfMaps(maps[..|maps| - 1]) + RefsOfMap(maps[|maps| - 1])
  }

  function RefsOf(span: Span): set<string> { RefsOfMaps(span.PayloadMaps()) }

  /** Adds every reference a span carries, markers excluded. */
  method PayloadRefsOf(span: Span, into: set<string>) returns (refs: set<string>)
    ensures refs == into + RefsOf(span)
  {
    hide RefsOfMap;
    refs := into;
    var maps := span.PayloadMaps();
    for i := 0 to |maps|
      invariant refs == into + RefsOfMaps(maps[..i])
    {
      assert maps[..i + 1][..i] == maps[..i];
      refs := RefsOfAttributes(maps[i], refs);
    }
    assert maps[..|maps|] == maps;
  }

  method RefsOfAttributes(attributes: Attributes, into: set<string>) returns (refs: set<string>)
    ensures refs == into + RefsOfMap(attributes)
  {
    hide IsMarker, Held;
    refs := into;
    var left := attributes.Keys;
    while left != {}
      invariant left <= attributes.Keys
      invariant forall r :: r in refs <==>
                  (r in into
                   || exists k ::
                        k in attributes && k !in left && !IsMarker(attributes[k]) && Held(attributes[k]) == Some(r))
    {
      var k :| k in left;
      left := left - {k};
      var value := attributes[k];
      if !IsMarker(value) && Held(value).Some? {
        refs := refs + {Held(value).value};
      }
    }
  }

  lemma {:induction false} RefsMeaning(maps: seq<Attributes>, reference: string)
    ensures reference in RefsOfMaps(maps) <==> exists i :: 0 <= i < |maps| && MapUnredacted(maps[i], reference)
  {
    if maps != [] {
      var n := |maps| - 1;
      RefsMeaning(maps[..n], reference);
      RefsOfMapMeaning(maps[n], reference);
      if i :| 0 <= i < |maps| && MapUnredacted(maps[i], reference) {
        assert i < n ==> maps[..n][i] == maps[i];
      }
    }
  }

  lemma RefsOfMapMeaning(attributes: Attributes, reference: string)
    ensures reference in RefsOfMap(attributes) <==> MapUnredacted(attributes, reference)
  {
  }

  /** A payload subject has work on a span exactly while the span carries the reference: while an attribute of the span
      or of one of its events or links names it under "$payload" and is not marked "erased". */
  lemma UnredactedMeansCarried(span: Span, reference: string)
    ensures PayloadUnredacted(span, reference) <==> reference in RefsOf(span)
    ensures PayloadUnredacted(span, reference)
            <==> exists attributes: Attributes, k: string ::
                   && (attributes == span.attributes || attributes in span.events || attributes in span.links)
                   && k in attributes && Get(attributes[k], "$payload") == Some(Str(reference))
                   && Get(attributes[k], "erased") != Some(Bool(true))
  {
    var maps := span.PayloadMaps();
    RefsMeaning(maps, reference);
    forall attributes: Attributes
      ensures attributes in maps <==>
              attributes == span.attributes || attributes in span.events || attributes in span.links
    {
    }
    hide Get, RefsOfMaps;
    if attributes: Attributes, k: string :|
      attributes in maps && k in attributes && Unredacted(attributes[k], reference)
    {
      var i :| 0 <= i < |maps| && maps[i] == attributes;
      assert MapUnredacted(maps[i], reference);
    }
  }

  // ---------------------------------------------------------------- redaction

  /** The marker a redaction leaves: the reference and its byte count, without the preview. */
  function Marker(value: Json, reference: string): Json {
    Obj([Member(PAYLOAD_KEY, Str(reference)), Member(BYTES, Get(value, BYTES).GetOr(Null)), Member(ERASED, Bool(true))])
  }

  function Redacted(value: Json, reference: string): Json {
    if Unredacted(value, reference) then Marker(value, reference) else value
  }

  function RedactedMap(attributes: Attributes, reference: string): Attributes {
    map k | k in attributes :: Redacted(attributes[k], reference)
  }

  function RedactedMaps(maps: seq<Attributes>, reference: string): seq<Attributes> {
    seq(|maps|, i requires 0 <= i < |maps| => RedactedMap(maps[i], reference))
  }

  function RedactedSpan(span: Span, reference: string): Span {
    span.(attributes := RedactedMap(span.attributes, reference), events := RedactedMaps(span.events, reference),
          links := RedactedMaps(span.links, reference))
  }

  lemma MarkerIsMarker(value: Json, reference: string)
    ensures IsMarker(Marker(value, reference)) && Held(Marker(value, reference)) == Some(reference)
    ensures var marker := Marker(value, reference);
            && Get(marker, "$payload") == Some(Str(reference)) && Get(marker, "erased") == Some(Bool(true))
            && Get(marker, "bytes") == Some(Get(value, "bytes").GetOr(Null)) && |marker.members| == 3
  {
    var members := Marker(value, reference).members;
    assert Find(members[1..], BYTES) == Some(Get(value, BYTES).GetOr(Null));
    assert members[1..][1..] == [Member(ERASED, Bool(true))];
    assert Find(members[1..][1..], ERASED) == Some(Bool(true));
    assert Find(members[1..], ERASED) == Find(members[1..][1..], ERASED);
  }

  lemma RedactedOnce(value: Json, reference: string)
    ensures !Unredacted(Redacted(value, reference), reference)
    ensures forall other :: other != reference ==>
              (Unredacted(Redacted(value, reference), other) <==> Unredacted(value, other))
  {
    MarkerIsMarker(value, reference);
  }

  lemma MapRedacted(attributes: Attributes, reference: string, other: string)
    ensures MapUnredacted(RedactedMap(attributes, reference), other) <==>
            MapUnredacted(attributes, other) && other != reference
    ensures !MapUnredacted(attributes, reference) ==> RedactedMap(attributes, reference) == attributes
  {
    hide Unredacted;
    var redacted := RedactedMap(attributes, reference);
    forall k | k in attributes
      ensures Unredacted(redacted[k], other) <==> Unredacted(attributes[k], other) && other != reference
    {
      RedactedOnce(attributes[k], reference);
    }
    if MapUnredacted(attributes, other) && other != reference {
      var k :| k in attributes && Unredacted(attributes[k], other);
      assert k in redacted;
    }
  }

  lemma RedactedMapsOf(span: Span, reference: string)
    ensures RedactedSpan(span, reference).PayloadMaps() == RedactedMaps(span.PayloadMaps(), reference)
  {
  }

  /** Redaction takes exactly the named reference out of what the span carries; where it is not carried, nothing
      changes, and a second redaction finds nothing to do. */
  lemma RedactionRemovesOneReference(span: Span, reference: string)
    ensures RefsOf(RedactedSpan(span, reference)) == RefsOf(span) - {reference}
    ensures !PayloadUnredacted(RedactedSpan(span, reference), reference)
    ensures reference !in RefsOf(span) ==> RedactedSpan(span, reference) == span
    ensures RedactedSpan(RedactedSpan(span, reference), reference) == RedactedSpan(span, reference)
    ensures RedactedSpan(span, reference).Key() == span.Key()
  {
    hide RefsOfMaps, RedactedMap, MapUnredacted;
    var maps, redacted := span.PayloadMaps(), RedactedSpan(span, reference);
    RedactedMapsOf(span, reference);
    forall other: string
      ensures other in RefsOf(redacted) <==> other in RefsOf(span) && other != reference
    {
      RefsMeaning(maps, other);
      RefsMeaning(redacted.PayloadMaps(), other);
      forall i | 0 <= i < |maps|
        ensures MapUnredacted(redacted.PayloadMaps()[i], other) <==> MapUnredacted(maps[i], other) && other != reference
      {
        MapRedacted(maps[i], reference, other);
      }
    }
    UnredactedMeansCarried(redacted, reference);
    RedactedUnchanged(span, reference);
    RedactedUnchanged(redacted, reference);
  }

  lemma RedactedUnchanged(span: Span, reference: string)
    ensures reference !in RefsOf(span) ==> RedactedSpan(span, reference) == span
  {
    hide RefsOfMaps, RedactedMap, MapUnredacted;
    RefsMeaning(span.PayloadMaps(), reference);
    if reference !in RefsOf(span) {
      var maps := span.PayloadMaps();
      forall i | 0 <= i < |maps|
        ensures RedactedMap(maps[i], reference) == maps[i]
      {
        MapRedacted(maps[i], reference, reference);
      }
      assert maps[0] == span.attributes;
      forall i | 0 <= i < |span.events|
        ensures RedactedMap(span.events[i], reference) == span.events[i]
      {
        assert maps[1 + i] == span.events[i];
      }
      forall i | 0 <= i < |span.links|
        ensures RedactedMap(span.links[i], reference) == span.links[i]
      {
        assert maps[1 + |span.events| + i] == span.links[i];
      }
    }
  }

  /** A span held in memory, whose attribute maps the redaction rewrites where they are. */
  class LiveSpan {
    const key: Key
    var attributes: Attributes
    var events: seq<Attributes>
    var links: seq<Attributes>

    constructor (span: Span)
      ensures Value() == span
    {
      key := span.Key();
      attributes, events, links := span.attributes, span.events, span.links;
    }

    function Value(): Span
      reads this
    {
      Span(key.0, key.1, key.2, attributes, events, links)
    }

    /** Rewrites every unredacted reference to `reference`, and reports whether there was one. */
    method RedactPayload(reference: string) returns (changed: bool)
      modifies this
      ensures Value() == RedactedSpan(old(Value()), reference)
      ensures changed <==> reference in RefsOf(old(Value()))
    {
      hide MapUnredacted, RedactedMap, RedactedMaps, RefsOf;
      CarriedInSomePart(Value(), reference);
      changed := false;
      var c;
      attributes, c := RedactAttributes(attributes, reference);
      changed := c;
      var redactedEvents;
      redactedEvents, c := RedactAll(events, reference);
      events := redactedEvents;
      changed := changed || c;
      var redactedLinks;
      redactedLinks, c := RedactAll(links, reference);
      links := redactedLinks;
      changed := changed || c;
    }
  }

  lemma CarriedInSomePart(span: Span, reference: string)
    ensures reference in RefsOf(span)
            <==> || MapUnredacted(span.attributes, reference)
                 || (exists i :: 0 <= i < |span.events| && MapUnredacted(span.events[i], reference))
                 || (exists i :: 0 <= i < |span.links| && MapUnredacted(span.links[i], reference))
  {
    hide MapUnredacted, RefsOfMaps;
    var maps := span.PayloadMaps();
    RefsMeaning(maps, reference);
    assert maps[0] == span.attributes;
    assert forall i :: 0 <= i < |span.events| ==> maps[1 + i] == span.events[i];
    assert forall i :: 0 <= i < |span.links| ==> maps[1 + |span.events| + i] == span.links[i];
  }

  method RedactAll(maps: seq<Attributes>, reference: string) returns (redacted: seq<Attributes>, changed: bool)
    ensures redacted == RedactedMaps(maps, reference)
    ensures changed <==> exists i :: 0 <= i < |maps| && MapUnredacted(maps[i], reference)
  {
    hide MapUnredacted, RedactedMap;
    redacted, changed := [], false;
    for i := 0 to |maps|
      invariant |redacted| == i && forall k :: 0 <= k < i ==> redacted[k] == RedactedMap(maps[k], reference)
      invariant changed <==> exists k :: 0 <= k < i && MapUnredacted(maps[k], reference)
    {
      var rewritten, c := RedactAttributes(maps[i], reference);
      redacted := redacted + [rewritten];
      changed := changed || c;
    }
  }

  method RedactAttributes(attributes: Attributes, reference: string) returns (redacted: Attributes, changed: bool)
    ensures redacted == RedactedMap(attributes, reference)
    ensures changed <==> MapUnredacted(attributes, reference)
  {
    hide Unredacted, Marker;
    redacted, changed := attributes, false;
    var left := attributes.Keys;
    while left != {}
      invariant left <= attributes.Keys == redacted.Keys
      invariant forall k :: k in attributes ==>
                  redacted[k] == if k in left then attributes[k] else Redacted(attributes[k], reference)
      invariant changed <==> exists k :: k in attributes && k !in left && Unredacted(attributes[k], reference)
    {
      var k :| k in left;
      left := left - {k};
      if Unredacted(redacted[k], reference) {
        redacted := redacted[k := Marker(redacted[k], reference)];
        changed := true;
      }
    }
  }

  // ---------------------------------------------------------------- subjects and what they do to a span

  datatype Subject =
    | TraceSubject(tenant: string, traceId: string)
    | SpanSubject(tenant: string, traceId: string, spanId: string)
    | SessionSubject(tenant: string, sessionId: string)
    | TenantSubject(tenant: string)
    | PayloadSubject(reference: string)

  datatype Action = Keep | Drop | Redact

  function ActionOn(sessions: Sessions, subject: Subject, span: Span): Action {
    match subject
    case TraceSubject(tenant, traceId) => if span.traceId == traceId && span.tenant == tenant then Drop else Keep
    case SpanSubject(tenant, traceId, spanId) =>
      if span.traceId == traceId && span.spanId == spanId && span.tenant == tenant then Drop else Keep
    case SessionSubject(tenant, sessionId) =>
      if span.tenant == tenant && sessions(span.attributes) == Some(sessionId) then Drop else Keep
    case TenantSubject(tenant) => if span.tenant == tenant then Drop else Keep
    case PayloadSubject(reference) => if PayloadUnredacted(span, reference) then Redact else Keep
  }

  // ---------------------------------------------------------------- the mask

  datatype EraseRecord = EraseRecord(id: U64, requested: U64, subject: Subject, spanKeys: seq<Key>,
                                     payloadRefs: seq<string>, datasets: seq<U64>, experiments: seq<U64>)

  datatype Mask = Mask(keys: set<Key>, traces: set<(string, string)>, sessions: set<(string, string)>,
                       tenants: set<string>, payloads: set<string>, payloadFiles: set<string>)
  {
    /** The span may not enter the store while the mask stands. */
    predicate CoversForDrop(resolve: Sessions, span: Span) {
      || span.tenant in tenants
      || (span.tenant, span.traceId) in traces
      || span.Key() in keys
      || (resolve(span.attributes).Some? && (span.tenant, resolve(span.attributes).value) in sessions)
    }

    /** Whether the read paths withhold this span. */
    predicate Covers(resolve: Sessions, span: Span) {
      CoversForDrop(resolve, span) || exists r :: r in payloads && PayloadUnredacted(span, r)
    }

    predicate CoversTenant(tenant: string) { tenant in tenants }

    predicate CoversPayloadFile(reference: string) { reference in payloadFiles }
  }

  const NO_MASK := Mask({}, {}, {}, {}, {}, {})

  function Elements<T>(s: seq<T>): set<T> { set x | x in s }

  function Absorbed(mask: Mask, record: EraseRecord): Mask {
    var m := mask.(keys := mask.keys + Elements(record.spanKeys),
                   payloadFiles := mask.payloadFiles + Elements(record.payloadRefs));
    match record.subject
    case TraceSubject(tenant, traceId) => m.(traces := m.traces + {(tenant, traceId)})
    case SessionSubject(tenant, sessionId) => m.(sessions := m.sessions + {(tenant, sessionId)})
    case PayloadSubject(reference) =>
      m.(payloads := m.payloads + {reference}, payloadFiles := m.payloadFiles + {reference})
    case SpanSubject(tenant, traceId, spanId) => m.(keys := m.keys + {(tenant, traceId, spanId)})
    case TenantSubject(tenant) => m.(tenants := m.tenants + {tenant})
  }

  function MaskFor(pending: seq<EraseRecord>): Mask {
    if pending == [] then NO_MASK else Absorbed(MaskFor(pending[..|pending| - 1]), pending[|pending| - 1])
  }

  /** Folds the records without an outcome into one mask. */
  method ForPending(pending: seq<EraseRecord>) returns (mask: Mask)
    ensures mask == MaskFor(pending)
  {
    mask := NO_MASK;
    for i := 0 to |pending|
      invariant mask == MaskFor(pending[..i])
    {
      var record := pending[i];
      assert pending[..i + 1][..i] == pending[..i];
      mask := mask.(keys := mask.keys + Elements(record.spanKeys));
      mask := mask.(payloadFiles := mask.payloadFiles + Elements(record.payloadRefs));
      match record.subject {
        case TraceSubject(tenant, traceId) =>
          mask := mask.(traces := mask.traces + {(tenant, traceId)});
        case SessionSubject(tenant, sessionId) =>
          mask := mask.(sessions := mask.sessions + {(tenant, sessionId)});
        case PayloadSubject(reference) =>
          mask := mask.(payloads := mask.payloads + {reference}, payloadFiles := mask.payloadFiles + {reference});
        case SpanSubject(tenant, traceId, spanId) =>
          mask := mask.(keys := mask.keys + {(tenant, traceId, spanId)});
        case TenantSubject(tenant) =>
          mask := mask.(tenants := mask.tenants + {tenant});
      }
    }
    assert pending[..|pending|] == pending;
  }

  /** A pending erasure is due to drop this span: its record lists the key, or its subject matches. */
  predicate DueToDrop(resolve: Sessions, record: EraseRecord, span: Span) {
    span.Key() in record.spanKeys || ActionOn(resolve, record.subject, span) == Drop
  }

  predicate DueToRedact(resolve: Sessions, record: EraseRecord, span: Span) {
    ActionOn(resolve, record.subject, span) == Redact
  }

  predicate DueForFile(record: EraseRecord, reference: string) {
    reference in record.payloadRefs || record.subject == PayloadSubject(reference)
  }

  lemma AbsorbedCovers(resolve: Sessions, mask: Mask, record: EraseRecord, span: Span)
    ensures var more := Absorbed(mask, record);
            && (more.CoversForDrop(resolve, span) <==>
                mask.CoversForDrop(resolve, span) || DueToDrop(resolve, record, span))
            && (more.Covers(resolve, span)
                <==> mask.Covers(resolve, span) || DueToDrop(resolve, record, span)
                     || DueToRedact(resolve, record, span))
  {
    hide PayloadUnredacted;
  }

  /** The admission barrier drops a span exactly when some pending erasure is due to drop it; the read paths also
      withhold the spans some pending payload erasure is still due to redact, and no others. */
  lemma {:induction false} MaskIsExact(resolve: Sessions, pending: seq<EraseRecord>, span: Span)
    ensures MaskFor(pending).CoversForDrop(resolve, span)
            <==> exists i :: 0 <= i < |pending| && DueToDrop(resolve, pending[i], span)
    ensures MaskFor(pending).Covers(resolve, span)
            <==> exists i :: 0 <= i < |pending|
                   && (DueToDrop(resolve, pending[i], span) || DueToRedact(resolve, pending[i], span))
  {
    hide PayloadUnredacted, DueToDrop, DueToRedact, Absorbed;
    if pending != [] {
      var n := |pending| - 1;
      var front := pending[..n];
      MaskIsExact(resolve, front, span);
      AbsorbedCovers(resolve, MaskFor(front), pending[n], span);
      assert forall i :: 0 <= i < n ==> front[i] == pending[i];
    }
  }

  lemma {:induction false} PayloadFilesAreExact(pending: seq<EraseRecord>, reference: string)
    ensures MaskFor(pending).CoversPayloadFile(reference)
            <==> exists i :: 0 <= i < |pending| && DueForFile(pending[i], reference)
  {
    if pending != [] {
      var n := |pending| - 1;
      var front := pending[..n];
      PayloadFilesAreExact(front, reference);
      assert forall i :: 0 <= i < n ==> front[i] == pending[i];
      assert Absorbed(MaskFor(front), pending[n]).CoversPayloadFile(reference)
        <==> MaskFor(front).CoversPayloadFile(reference) || DueForFile(pending[n], reference);
    }
  }

  lemma {:induction false} TenantsAreExact(pending: seq<EraseRecord>, tenant: string)
    ensures MaskFor(pending).CoversTenant(tenant)
            <==> exists i :: 0 <= i < |pending| && pending[i].subject == TenantSubject(tenant)
  {
    if pending != [] {
      var n := |pending| - 1;
      var front := pending[..n];
      TenantsAreExact(front, tenant);
      assert forall i :: 0 <= i < n ==> front[i] == pending[i];
    }
  }
}

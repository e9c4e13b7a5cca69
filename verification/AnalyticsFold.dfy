/** `fold_analytics`: last-write-wins aggregation over the buffer and newest-first segments, by rollup where a rollup
    is usable and span by span where it is not. */
module AnalyticsFold {
  import opened Common
  import opened Counters
  import opened Sessions
  import opened Measures
  import opened Rollup

  /** A segment's records; only a local segment has a key-hash set to consult. */
  datatype Segment = Segment(spans: seq<Span>, localSidecars: bool)

  datatype Query = Query(since: Option<U64>, until: Option<U64>, tenant: Option<string>, mask: Option<Span -> bool>)

  predicate InWindow(start: U64, since: Option<U64>, until: Option<U64>) {
    (since.None? || start >= since.value) && (until.None? || start <= until.value)
  }

  predicate Wanted(query: Query, span: Span) {
    && InWindow(span.start, query.since, query.until)
    && (query.mask.None? || !query.mask.value(span))
    && (query.tenant.None? || span.key.tenant == query.tenant.value)
  }

  // ---------------------------------------------------------------- the reference: newest version, then filter

  predicate UniqueKeys(spans: seq<Span>) {
    forall i, j :: 0 <= i < j < |spans| ==> spans[i].key != spans[j].key
  }

  ghost function ByKey(spans: seq<Span>): map<Key, Span> {
    if spans == [] then map[] else ByKey(spans[..|spans| - 1])[spans[|spans| - 1].key := spans[|spans| - 1]]
  }

  /** The newest version of every key: segments oldest first, the buffer over all of them. */
  ghost function Newest(buffer: seq<Span>, segments: seq<Segment>): map<Key, Span> {
    if segments == [] then ByKey(buffer) else ByKey(segments[0].spans) + Newest(buffer, segments[1..])
  }

  ghost function Reference(buffer: seq<Span>, segments: seq<Segment>, query: Query): iset<Span> {
    var newest := Newest(buffer, segments);
    iset span: Span | span.key in newest && newest[span.key] == span && Wanted(query, span)
  }

  predicate HoldsKey(spans: seq<Span>, key: Key) {
    exists i :: 0 <= i < |spans| && spans[i].key == key
  }

  lemma {:induction false} ByKeyHolds(spans: seq<Span>)
    ensures forall key :: key in ByKey(spans) <==> HoldsKey(spans, key)
    ensures forall key :: key in ByKey(spans) ==> ByKey(spans)[key].key == key && ByKey(spans)[key] in spans
    ensures forall i :: 0 <= i < |spans| ==>
              spans[i].key in ByKey(spans) && (UniqueKeys(spans) ==> ByKey(spans)[spans[i].key] == spans[i])
  {
    if spans != [] {
      var front, last := spans[..|spans| - 1], spans[|spans| - 1];
      ByKeyHolds(front);
      assert spans == front + [last];
      HoldsStep(front, last);
      assert ByKey(spans) == ByKey(front)[last.key := last];
      hide HoldsKey, ByKey, UniqueKeys;
      forall key | key in ByKey(spans)
        ensures ByKey(spans)[key].key == key && ByKey(spans)[key] in spans
      {
        assert key == last.key || ByKey(spans)[key] in front;
      }
      forall i | 0 <= i < |spans|
        ensures spans[i].key in ByKey(spans) && (UniqueKeys(spans) ==> ByKey(spans)[spans[i].key] == spans[i])
      {
        if i < |front| {
          assert front[i] == spans[i] && front[i].key in ByKey(front);
          LastIsNew(spans, i);
        }
      }
    }
  }

  lemma LastIsNew(spans: seq<Span>, i: nat)
    requires i < |spans| - 1
    ensures UniqueKeys(spans) ==> UniqueKeys(spans[..|spans| - 1]) && spans[i].key != spans[|spans| - 1].key
  {
  }

  lemma HoldsStep(front: seq<Span>, last: Span)
    ensures forall key :: HoldsKey(front + [last], key) <==> HoldsKey(front, key) || key == last.key
    ensures forall i :: 0 <= i < |front + [last]| ==> HoldsKey(front + [last], (front + [last])[i].key)
  {
    var spans := front + [last];
    forall key
      ensures HoldsKey(spans, key) <==> HoldsKey(front, key) || key == last.key
    {
      if HoldsKey(front, key) {
        var i :| 0 <= i < |front| && front[i].key == key;
        assert spans[i].key == key;
      }
      assert spans[|front|] == last;
    }
  }

  predicate HeldSince(buffer: seq<Span>, segments: seq<Segment>, key: Key) {
    HoldsKey(buffer, key) || HeldIn(segments, key)
  }

  predicate HeldIn(segments: seq<Segment>, key: Key) {
    exists j :: 0 <= j < |segments| && HoldsKey(segments[j].spans, key)
  }

  lemma {:induction false} NewestHolds(buffer: seq<Span>, segments: seq<Segment>)
    ensures forall key :: key in Newest(buffer, segments) <==> HeldSince(buffer, segments, key)
    ensures forall key :: key in Newest(buffer, segments) ==> Newest(buffer, segments)[key].key == key
  {
    if segments == [] {
      ByKeyHolds(buffer);
    } else {
      ByKeyHolds(segments[0].spans);
      NewestHolds(buffer, segments[1..]);
      forall key
        ensures HeldSince(buffer, segments, key) <==>
                HoldsKey(segments[0].spans, key) || HeldSince(buffer, segments[1..], key)
      {
        hide HoldsKey;
        if HeldSince(buffer, segments[1..], key) && !HoldsKey(buffer, key) {
          var j :| 0 <= j < |segments[1..]| && HoldsKey(segments[1..][j].spans, key);
          assert HoldsKey(segments[j + 1].spans, key);
        }
        if HeldSince(buffer, segments, key) && !HoldsKey(buffer, key) {
          var j :| 0 <= j < |segments| && HoldsKey(segments[j].spans, key);
          assert j > 0 ==> segments[1..][j - 1] == segments[j];
        }
      }
    }
  }

  /** The span's version stands: it is buffered, or in a segment and its key in nothing newer. */
  ghost predicate Stands(buffer: seq<Span>, segments: seq<Segment>, span: Span) {
    span in buffer || (!HoldsKey(buffer, span.key) && exists i: nat :: StandsIn(segments, span, i))
  }

  predicate StandsIn(segments: seq<Segment>, span: Span, i: nat) {
    i < |segments| && span in segments[i].spans
    && forall j :: i < j < |segments| ==> !HoldsKey(segments[j].spans, span.key)
  }

  lemma {:induction false} NewestStands(buffer: seq<Span>, segments: seq<Segment>, span: Span)
    requires UniqueKeys(buffer) && forall i :: 0 <= i < |segments| ==> UniqueKeys(segments[i].spans)
    ensures span.key in Newest(buffer, segments) && Newest(buffer, segments)[span.key] == span
            <==> Stands(buffer, segments, span)
  {
    hide HoldsKey, UniqueKeys;
    if segments == [] {
      VersionsOf(buffer, span);
    } else {
      var first, rest := segments[0].spans, segments[1..];
      NewestStands(buffer, rest, span);
      NewestHolds(buffer, rest);
      VersionsOf(first, span);
      StandsFirst(buffer, segments, span);
      hide Stands;
      assert Newest(buffer, segments) == ByKey(first) + Newest(buffer, rest);
    }
  }

  lemma VersionsOf(spans: seq<Span>, span: Span)
    requires UniqueKeys(spans)
    ensures span.key in ByKey(spans) && ByKey(spans)[span.key] == span <==> span in spans
    ensures span in spans ==> HoldsKey(spans, span.key)
    ensures span.key in ByKey(spans) <==> HoldsKey(spans, span.key)
  {
    ByKeyHolds(spans);
    hide ByKey;
    if span in spans {
      var i :| 0 <= i < |spans| && spans[i] == span;
    }
  }

  lemma StandsFirst(buffer: seq<Span>, segments: seq<Segment>, span: Span)
    requires segments != []
    ensures Stands(buffer, segments, span) <==>
            || Stands(buffer, segments[1..], span)
            || (!HeldSince(buffer, segments[1..], span.key) && span in segments[0].spans)
  {
    hide HoldsKey;
    var rest := segments[1..];
    assert forall j :: 0 <= j < |rest| ==> rest[j] == segments[j + 1];
    if i: nat :| StandsIn(segments, span, i) {
      if i > 0 {
        assert StandsIn(rest, span, i - 1);
      } else {
        forall j | 0 <= j < |rest|
          ensures !HoldsKey(rest[j].spans, span.key)
        {
          assert rest[j] == segments[j + 1];
        }
      }
    }
    if i: nat :| StandsIn(rest, span, i) {
      assert StandsIn(segments, span, i + 1);
    }
    if !HeldIn(rest, span.key) && span in segments[0].spans {
      forall j | 0 < j < |segments|
        ensures !HoldsKey(segments[j].spans, span.key)
      {
        assert !HoldsKey(rest[j - 1].spans, span.key);
      }
      assert StandsIn(segments, span, 0);
    }
  }

  /** What is asked for: the versions that stand, begin in the window, belong to the tenant and are not masked. */
  lemma ReferenceMeans(buffer: seq<Span>, segments: seq<Segment>, query: Query, span: Span)
    requires UniqueKeys(buffer) && forall i :: 0 <= i < |segments| ==> UniqueKeys(segments[i].spans)
    ensures span in Reference(buffer, segments, query) <==>
            && Stands(buffer, segments, span)
            && (query.since.Some? ==> query.since.value <= span.start)
            && (query.until.Some? ==> span.start <= query.until.value)
            && (query.tenant.Some? ==> query.tenant.value == span.key.tenant)
            && (query.mask.Some? && query.mask.value(span) ==> false)
  {
    NewestStands(buffer, segments, span);
    hide Newest, Stands;
  }

  // ---------------------------------------------------------------- one step of the walk

  /** What a segment adds once everything newer has been resolved. */
  function Survivors(spans: seq<Span>, keep: Span -> bool): seq<Span> {
    if spans == [] then []
    else Survivors(spans[..|spans| - 1], keep) + if keep(spans[|spans| - 1]) then [spans[|spans| - 1]] else []
  }

  lemma {:induction false} SurvivorsAre(spans: seq<Span>, keep: Span -> bool)
    ensures forall span :: span in Survivors(spans, keep) <==> span in spans && keep(span)
    ensures UniqueKeys(spans) ==> UniqueKeys(Survivors(spans, keep))
  {
    if spans != [] {
      var front, last := spans[..|spans| - 1], spans[|spans| - 1];
      SurvivorsAre(front, keep);
      assert spans == front + [last];
      if UniqueKeys(spans) {
        assert UniqueKeys(front);
        forall i | 0 <= i < |Survivors(front, keep)|
          ensures Survivors(front, keep)[i].key != last.key
        {
          var span := Survivors(front, keep)[i];
          assert span in front;
        }
      }
    }
  }

  lemma UniqueKeysDistinct(spans: seq<Span>)
    requires UniqueKeys(spans)
    ensures forall i, j :: 0 <= i < j < |spans| ==> spans[i] != spans[j]
  {
  }

  lemma BufferStep(buffer: seq<Span>, query: Query, kept: seq<Span>)
    requires UniqueKeys(buffer) && kept == Survivors(buffer, span => Wanted(query, span))
    ensures Enumerates(kept, Reference(buffer, [], query))
  {
    hide Wanted;
    ByKeyHolds(buffer);
    SurvivorsAre(buffer, span => Wanted(query, span));
    UniqueKeysDistinct(kept);
    forall i | 0 <= i < |kept|
      ensures kept[i] in Reference(buffer, [], query)
    {
      assert kept[i] in kept;
    }
    forall span | span in Reference(buffer, [], query)
      ensures span in kept
    {
      assert span.key in ByKey(buffer) && ByKey(buffer)[span.key] in buffer;
    }
  }

  /** Adding the unsuperseded wanted spans of the next older segment keeps the enumeration exact. */
  lemma SegmentStep(buffer: seq<Span>, segment: Segment, newer: seq<Segment>, query: Query, soFar: seq<Span>,
                    added: seq<Span>)
    requires UniqueKeys(segment.spans) && UniqueKeys(added)
    requires Enumerates(soFar, Reference(buffer, newer, query))
    requires forall span :: span in added <==>
                              span in segment.spans && Wanted(query, span) && !HeldSince(buffer, newer, span.key)
    ensures Enumerates(soFar + added, Reference(buffer, [segment] + newer, query))
  {
    hide Wanted, HoldsKey;
    var segments := [segment] + newer;
    assert segments[0] == segment && segments[1..] == newer;
    NewestHolds(buffer, newer);
    ByKeyHolds(segment.spans);
    UniqueKeysDistinct(added);
    var newest, resolved := Newest(buffer, newer), Newest(buffer, segments);
    assert resolved == ByKey(segment.spans) + newest;
    forall i, j | 0 <= i < |soFar| && 0 <= j < |added|
      ensures soFar[i] != added[j]
    {
      assert soFar[i].key in newest;
      assert added[j] in added && !HeldSince(buffer, newer, added[j].key);
    }
    var both := soFar + added;
    forall i | 0 <= i < |both|
      ensures both[i] in Reference(buffer, segments, query)
    {
      if i >= |soFar| {
        assert both[i] in added;
      }
    }
    forall span | span in Reference(buffer, segments, query)
      ensures span in both
    {
      if span.key in newest {
        assert span in Reference(buffer, newer, query);
      } else {
        assert ByKey(segment.spans)[span.key] in segment.spans;
        assert !HeldSince(buffer, newer, span.key);
        assert span in added;
      }
    }
  }

  // ---------------------------------------------------------------- when a rollup may be used whole

  lemma RollupOutside(rollup: SegmentRollup, spans: seq<Span>, query: Query, hash: KeyHash)
    requires IsRollupOf(rollup, spans, hash)
    requires (query.since.Some? && rollup.maxStart < query.since.value)
             || (query.until.Some? && rollup.minStart > query.until.value)
    ensures forall span :: span in spans ==> !Wanted(query, span)
  {
    StartsBounded(spans);
    forall span | span in spans
      ensures !Wanted(query, span)
    {
      var i :| 0 <= i < |spans| && spans[i] == span;
    }
  }

  lemma RollupInside(rollup: SegmentRollup, spans: seq<Span>, query: Query, hash: KeyHash)
    requires IsRollupOf(rollup, spans, hash) && query.mask.None? && query.tenant.None?
    requires InWindow(rollup.minStart, query.since, query.until) && InWindow(rollup.maxStart, query.since, query.until)
    ensures forall span :: span in spans ==> Wanted(query, span)
  {
    StartsBounded(spans);
    forall span | span in spans
      ensures Wanted(query, span)
    {
      var i :| 0 <= i < |spans| && spans[i] == span;
    }
  }

  /** The hashes of every key held by some newer segment. */
  ghost predicate HashesCover(hashes: set<nat>, segments: seq<Segment>, hash: KeyHash) {
    forall j, key :: 0 <= j < |segments| && HoldsKey(segments[j].spans, key) ==> hash(key) in hashes
  }

  /** A hash that was never seen proves that the key was never seen, whatever collides with whatever. */
  lemma NotSuperseded(buffer: seq<Span>, newer: seq<Segment>, bufferHashes: set<nat>, segmentHashes: set<nat>,
                      rollup: SegmentRollup, spans: seq<Span>, hash: KeyHash)
    requires IsRollupOf(rollup, spans, hash)
    requires bufferHashes == KeyHashes(buffer, hash) && HashesCover(segmentHashes, newer, hash)
    requires rollup.keyHashes !! bufferHashes && rollup.keyHashes !! segmentHashes
    ensures forall span :: span in spans ==> !HeldSince(buffer, newer, span.key)
  {
    forall span | span in spans
      ensures !HeldSince(buffer, newer, span.key)
    {
      var i :| 0 <= i < |spans| && spans[i] == span;
      assert hash(spans[i].key) in rollup.keyHashes;
    }
  }

  lemma HashesStepBack(hashes: set<nat>, rollup: SegmentRollup, segment: Segment, newer: seq<Segment>, hash: KeyHash)
    requires HashesCover(hashes, newer, hash) && IsRollupOf(rollup, segment.spans, hash)
    ensures HashesCover(hashes + rollup.keyHashes, [segment] + newer, hash)
  {
    var segments := [segment] + newer;
    forall j, key | 0 <= j < |segments| && HoldsKey(segments[j].spans, key)
      ensures hash(key) in hashes + rollup.keyHashes
    {
      if j == 0 {
        var i :| 0 <= i < |segment.spans| && segment.spans[i].key == key;
        assert hash(segment.spans[i].key) in rollup.keyHashes;
      } else {
        assert segments[j] == newer[j - 1];
      }
    }
  }

  // ---------------------------------------------------------------- the code

  /** Whether any newer segment holds the span's key: a hash-set miss skips a segment, a hit is confirmed exactly. */
  method SupersededByNewer(segments: seq<Segment>, position: nat, span: Span, hash: KeyHash) returns (superseded: bool)
    requires position < |segments|
    ensures superseded <==> HeldIn(segments[position + 1..], span.key)
  {
    ghost var newer := segments[position + 1..];
    var wanted := hash(span.key);
    for at := position + 1 to |segments|
      invariant forall j :: 0 <= j < at - (position + 1) ==> !HoldsKey(newer[j].spans, span.key)
    {
      assert newer[at - (position + 1)] == segments[at];
      var mayHold := !segments[at].localSidecars || wanted in KeyHashes(segments[at].spans, hash);
      if mayHold && HoldsKey(segments[at].spans, span.key) {
        return true;
      }
      if !mayHold {
        HashMissProves(segments[at].spans, span.key, hash);
      }
    }
    return false;
  }

  lemma HashMissProves(spans: seq<Span>, key: Key, hash: KeyHash)
    requires hash(key) !in KeyHashes(spans, hash)
    ensures !HoldsKey(spans, key)
  {
  }

  /** The gate's walk over a rollup's hashes. It stops at the first collision with a segment. */
  method Shadowed(hashes: set<nat>, segmentHashes: set<nat>, bufferHashes: set<nat>)
    returns (bySegment: bool, byBuffer: bool)
    ensures bySegment <==> !(hashes !! segmentHashes)
    ensures bySegment || byBuffer <==> !(hashes !! segmentHashes && hashes !! bufferHashes)
  {
    bySegment, byBuffer := false, false;
    var rest := hashes;
    while rest != {}
      invariant rest <= hashes && !bySegment
      invariant hashes - rest !! segmentHashes
      invariant byBuffer <==> !(hashes - rest !! bufferHashes)
    {
      var hash :| hash in rest;
      rest := rest - {hash};
      if hash in segmentHashes {
        bySegment := true;
        return;
      }
      assert hashes - rest == hashes - (rest + {hash}) + {hash};
      byBuffer := byBuffer || hash in bufferHashes;
    }
    assert hashes - rest == hashes;
  }

  function Flat(parts: seq<seq<Span>>): seq<Span> {
    if parts == [] then [] else Flat(parts[..|parts| - 1]) + parts[|parts| - 1]
  }

  ghost predicate VisitsMatch(visits: seq<SegmentRollup>, parts: seq<seq<Span>>, hash: KeyHash) {
    |visits| == |parts| && forall i :: 0 <= i < |visits| ==> IsRollupOf(visits[i], parts[i], hash)
  }

  method ExactPath(buffer: seq<Span>, segments: seq<Segment>, position: nat, query: Query, hash: KeyHash)
    returns (survivors: seq<Span>)
    requires position < |segments| && UniqueKeys(segments[position].spans)
    ensures UniqueKeys(survivors)
    ensures forall span :: span in survivors <==>
                             span in segments[position].spans && Wanted(query, span)
                             && !HeldSince(buffer, segments[position + 1..], span.key)
  {
    hide Wanted, HoldsKey;
    var spans := segments[position].spans;
    ghost var newer := segments[position + 1..];
    survivors := [];
    for i := 0 to |spans|
      invariant forall span :: span in survivors <==>
                                 span in spans[..i] && Wanted(query, span) && !HeldSince(buffer, newer, span.key)
      invariant UniqueKeys(survivors)
    {
      assert spans[..i + 1] == spans[..i] + [spans[i]];
      var superseded := HoldsKey(buffer, spans[i].key);
      if Wanted(query, spans[i]) && !superseded {
        superseded := SupersededByNewer(segments, position, spans[i], hash);
      }
      if Wanted(query, spans[i]) && !superseded {
        NewKey(spans, i, survivors);
        survivors := survivors + [spans[i]];
      }
    }
    assert spans[..|spans|] == spans;
  }

  lemma NewKey(spans: seq<Span>, i: nat, survivors: seq<Span>)
    requires i < |spans| && UniqueKeys(spans) && UniqueKeys(survivors)
    requires forall span :: span in survivors ==> span in spans[..i]
    ensures UniqueKeys(survivors + [spans[i]])
  {
    forall k | 0 <= k < |survivors|
      ensures survivors[k].key != spans[i].key
    {
      assert survivors[k] in spans[..i];
    }
  }

  /** What the cache or a sidecar has for each segment: nothing, or the rollup of that segment. */
  ghost predicate Bound(found: seq<Option<SegmentRollup>>, segments: seq<Segment>, hash: KeyHash) {
    |found| == |segments|
    && forall i :: 0 <= i < |found| && found[i].Some? ==> IsRollupOf(found[i].value, segments[i].spans, hash)
  }

  /** A segment's rollup: the one found, or built from its spans. */
  method RollupOf(found: Option<SegmentRollup>, segment: Segment, hash: KeyHash) returns (rollup: SegmentRollup)
    requires found.Some? ==> IsRollupOf(found.value, segment.spans, hash)
    ensures IsRollupOf(rollup, segment.spans, hash)
  {
    if found.Some? {
      return found.value;
    }
    rollup := Build(segment.spans, hash);
  }

  /** The fold. `parts` names the spans behind each visited rollup: together they are the newest wanted version of
      every key, each exactly once, whichever rollups were found and whichever path produced them. */
  method FoldAnalytics(buffer: seq<Span>, segments: seq<Segment>, query: Query, found: seq<Option<SegmentRollup>>,
                       hash: KeyHash)
    returns (visits: seq<SegmentRollup>, ghost parts: seq<seq<Span>>)
    requires UniqueKeys(buffer) && forall i :: 0 <= i < |segments| ==> UniqueKeys(segments[i].spans)
    requires Bound(found, segments, hash)
    ensures VisitsMatch(visits, parts, hash)
    ensures Enumerates(Flat(parts), Reference(buffer, segments, query))
  {
    hide Wanted, IsRollupOf, HoldsKey, Enumerates, Reference, HashesCover;
    var buffered := Survivors(buffer, span => Wanted(query, span));
    visits, parts := [], [];
    if buffered != [] {
      var rollup := Build(buffered, hash);
      visits, parts := [rollup], [buffered];
    }
    assert Flat(parts) == buffered;
    BufferStep(buffer, query, buffered);
    var bufferHashes := KeyHashes(buffer, hash);
    var segmentHashes: set<nat> := {};
    NoHashes(segmentHashes, hash);
    var position := |segments|;
    assert segments[position..] == [];
    while position > 0
      invariant position <= |segments|
      invariant VisitsMatch(visits, parts, hash)
      invariant Enumerates(Flat(parts), Reference(buffer, segments[position..], query))
      invariant HashesCover(segmentHashes, segments[position..], hash)
    {
      position := position - 1;
      var segment := segments[position];
      ghost var newer := segments[position + 1..];
      assert segments[position..] == [segment] + newer;
      var rollup := RollupOf(found[position], segment, hash);
      var overlaps := (query.since.None? || rollup.maxStart >= query.since.value)
                      && (query.until.None? || rollup.minStart <= query.until.value);
      if !overlaps {
        RollupOutside(rollup, segment.spans, query, hash);
        SegmentStep(buffer, segment, newer, query, Flat(parts), []);
        assert Flat(parts) + [] == Flat(parts);
      } else {
        var fullyInside := InWindow(rollup.minStart, query.since, query.until)
                           && InWindow(rollup.maxStart, query.since, query.until);
        var bySegment, byBuffer := Shadowed(rollup.keyHashes, segmentHashes, bufferHashes);
        if fullyInside && !(byBuffer || bySegment) && query.mask.None? && query.tenant.None? {
          RollupInside(rollup, segment.spans, query, hash);
          NotSuperseded(buffer, newer, bufferHashes, segmentHashes, rollup, segment.spans, hash);
          SegmentStep(buffer, segment, newer, query, Flat(parts), segment.spans);
          visits, parts := Visit(visits, parts, rollup, segment.spans, hash);
        } else {
          var survivors := ExactPath(buffer, segments, position, query, hash);
          SegmentStep(buffer, segment, newer, query, Flat(parts), survivors);
          if survivors != [] {
            var exact := Build(survivors, hash);
            visits, parts := Visit(visits, parts, exact, survivors, hash);
          } else {
            assert Flat(parts) + [] == Flat(parts);
          }
        }
      }
      HashesStepBack(segmentHashes, rollup, segment, newer, hash);
      segmentHashes := segmentHashes + rollup.keyHashes;
    }
    assert segments[0..] == segments;
  }

  lemma NoHashes(hashes: set<nat>, hash: KeyHash)
    ensures HashesCover(hashes, [], hash)
  {
  }

  method Visit(visits: seq<SegmentRollup>, ghost parts: seq<seq<Span>>, rollup: SegmentRollup, ghost spans: seq<Span>,
               hash: KeyHash)
    returns (visits': seq<SegmentRollup>, ghost parts': seq<seq<Span>>)
    requires VisitsMatch(visits, parts, hash) && IsRollupOf(rollup, spans, hash)
    ensures visits' == visits + [rollup] && VisitsMatch(visits', parts', hash) && Flat(parts') == Flat(parts) + spans
  {
    hide IsRollupOf;
    visits', parts' := visits + [rollup], parts + [spans];
    assert parts'[..|parts' | - 1] == parts;
  }

  // ---------------------------------------------------------------- the answers

  /** `merged.entry(key).or_default().merge(counters)` for every row, in whatever order the map yields them. */
  method MergeRows(merged: map<Group, Counters>, rows: map<Group, Counters>) returns (result: map<Group, Counters>)
    ensures result == MergedRows(merged, rows)
  {
    hide Counters.Merge;
    forall group | group in merged
      ensures merged[group].Merge(ZERO) == merged[group]
    {
      MergeZero(merged[group]);
    }
    result := merged;
    var rest := rows.Keys;
    while rest != {}
      invariant rest <= rows.Keys
      invariant result.Keys == merged.Keys + (rows.Keys - rest)
      invariant forall group :: group in result ==>
                  result[group] == (if group in merged then merged[group] else ZERO)
                                   .Merge(if group in rows && group !in rest then rows[group] else ZERO)
    {
      var group :| group in rest;
      var before := if group in result then result[group] else ZERO;
      MergeZero(before);
      result := result[group := before.Merge(rows[group])];
      rest := rest - {group};
    }
  }

  method MergeSessions(merged: map<Group, SessionCounters>, rows: map<Group, SessionCounters>)
    returns (result: map<Group, SessionCounters>)
    ensures result == MergedSessions(merged, rows)
  {
    hide SessionCounters.Merge;
    result := merged;
    var rest := rows.Keys;
    while rest != {}
      invariant rest <= rows.Keys
      invariant result.Keys == merged.Keys + (rows.Keys - rest)
      invariant forall group :: group in result ==>
                  result[group] == if group in rows && group !in rest
                                   then (if group in merged then merged[group] else NO_SESSION).Merge(rows[group])
                                   else merged[group]
    {
      var group :| group in rest;
      var before := if group in result then result[group] else NO_SESSION;
      result := result[group := before.Merge(rows[group])];
      rest := rest - {group};
    }
  }

  /** The rows a tenant may see: session rows are keyed by tenant, so narrowing them afterwards is exact. */
  function OfTenant<T>(rows: map<Group, T>, tenant: Option<string>): map<Group, T> {
    map group | group in rows && (tenant.None? || group.0 == tenant.value) :: rows[group]
  }

  predicate OfTenantSpan(span: Span, tenant: Option<string>) {
    tenant.None? || span.key.tenant == tenant.value
  }

  function TenantSpans(spans: seq<Span>, tenant: Option<string>): seq<Span> {
    if spans == [] then []
    else TenantSpans(spans[..|spans| - 1], tenant)
         + if OfTenantSpan(spans[|spans| - 1], tenant) then [spans[|spans| - 1]] else []
  }

  lemma {:induction false} TenantTally(spans: seq<Span>, tenant: Option<string>, session: Group)
    requires tenant.None? || session.0 == tenant.value
    ensures Tally(TenantSpans(spans, tenant), BySession, session) == Tally(spans, BySession, session)
    ensures SessionRow(TenantSpans(spans, tenant), session) == SessionRow(spans, session)
  {
    hide Counters.Absorb, SessionCounters.Absorb;
    if spans != [] {
      var front, last := spans[..|spans| - 1], spans[|spans| - 1];
      TenantTally(front, tenant, session);
      if OfTenantSpan(last, tenant) {
        assert TenantSpans(spans, tenant)[..|TenantSpans(front, tenant)|] == TenantSpans(front, tenant);
      } else {
        assert TenantSpans(spans, tenant) == TenantSpans(front, tenant);
        assert !Member(last, session);
      }
    }
  }

  lemma {:induction false} TenantMembers(spans: seq<Span>, tenant: Option<string>)
    ensures forall span :: span in TenantSpans(spans, tenant) <==> span in spans && OfTenantSpan(span, tenant)
    ensures (forall i, j :: 0 <= i < j < |spans| ==> spans[i] != spans[j]) ==>
            forall i, j :: 0 <= i < j < |TenantSpans(spans, tenant)| ==>
              TenantSpans(spans, tenant)[i] != TenantSpans(spans, tenant)[j]
  {
    hide OfTenantSpan;
    if spans != [] {
      var front, last := spans[..|spans| - 1], spans[|spans| - 1];
      TenantMembers(front, tenant);
      assert spans == front + [last];
      var kept := TenantSpans(front, tenant);
      if forall i, j :: 0 <= i < j < |spans| ==> spans[i] != spans[j] {
        forall i | 0 <= i < |kept|
          ensures kept[i] != last
        {
          assert kept[i] in kept;
        }
      }
    }
  }

  /** Narrowing the rows of the unscoped fold is folding the tenant's spans only. */
  lemma TenantRows(spans: seq<Span>, tenant: Option<string>)
    ensures Rows(TenantSpans(spans, tenant), BySession) == OfTenant(Rows(spans, BySession), tenant)
    ensures SessionRows(TenantSpans(spans, tenant)) == OfTenant(SessionRows(spans), tenant)
  {
    hide Tally, SessionRow;
    TenantGroups(spans, tenant);
    forall session: Group | tenant.None? || session.0 == tenant.value
      ensures Tally(TenantSpans(spans, tenant), BySession, session) == Tally(spans, BySession, session)
      ensures SessionRow(TenantSpans(spans, tenant), session) == SessionRow(spans, session)
    {
      TenantTally(spans, tenant, session);
    }
  }

  lemma TenantGroups(spans: seq<Span>, tenant: Option<string>)
    ensures forall group :: group in GroupsOf(TenantSpans(spans, tenant), BySession) <==>
                            group in GroupsOf(spans, BySession) && (tenant.None? || group.0 == tenant.value)
  {
    TenantMembers(spans, tenant);
    var kept := TenantSpans(spans, tenant);
    hide TenantSpans;
    forall group
      ensures group in GroupsOf(kept, BySession) <==>
              group in GroupsOf(spans, BySession) && (tenant.None? || group.0 == tenant.value)
    {
      if group in GroupsOf(kept, BySession) {
        var i :| 0 <= i < |kept| && GroupOf(BySession, kept[i]) == Some(group);
        assert kept[i] in kept;
        var j :| 0 <= j < |spans| && spans[j] == kept[i];
        assert GroupOf(BySession, spans[j]) == Some(group);
      }
      if group in GroupsOf(spans, BySession) && (tenant.None? || group.0 == tenant.value) {
        var i :| 0 <= i < |spans| && GroupOf(BySession, spans[i]) == Some(group);
        assert spans[i] in kept;
        var j :| 0 <= j < |kept| && kept[j] == spans[i];
        assert GroupOf(BySession, kept[j]) == Some(group);
      }
    }
  }

  lemma TenantReference(spans: seq<Span>, buffer: seq<Span>, segments: seq<Segment>, query: Query,
                        tenant: Option<string>)
    requires query.tenant.None? && Enumerates(spans, Reference(buffer, segments, query))
    ensures Enumerates(TenantSpans(spans, tenant), Reference(buffer, segments, query.(tenant := tenant)))
  {
    TenantMembers(spans, tenant);
    var kept := TenantSpans(spans, tenant);
    forall i | 0 <= i < |kept|
      ensures kept[i] in Reference(buffer, segments, query.(tenant := tenant))
    {
      assert kept[i] in kept;
    }
    forall span | span in Reference(buffer, segments, query.(tenant := tenant))
      ensures span in kept
    {
      assert span in Reference(buffer, segments, query);
    }
  }

  /** What every answer is measured against: the rows of the newest wanted versions, listed in any order at all, with
      every field the sum of its own measure over the spans of its group. */
  ghost predicate ExactRows(rows: map<Group, Counters>, dimension: Dimension, expected: iset<Span>) {
    && (exists spans :: Enumerates(spans, expected))
    && forall spans :: Enumerates(spans, expected) ==>
         rows == Rows(spans, dimension) && MeasuredRows(rows, spans, dimension)
  }

  ghost predicate ExactSessions(rows: map<Group, SessionCounters>, expected: iset<Span>) {
    && (exists spans :: Enumerates(spans, expected))
    && forall spans :: Enumerates(spans, expected) ==> rows == SessionRows(spans) && MeasuredSessions(rows, spans)
  }

  lemma AnyOrder(spans: seq<Span>, dimension: Dimension, expected: iset<Span>)
    requires Enumerates(spans, expected)
    ensures ExactRows(Rows(spans, dimension), dimension, expected)
    ensures ExactSessions(SessionRows(spans), expected)
  {
    hide Rows, SessionRows, MeasuredRows, MeasuredSessions, Enumerates;
    forall other | Enumerates(other, expected)
      ensures Rows(spans, dimension) == Rows(other, dimension) && SessionRows(spans) == SessionRows(other)
      ensures MeasuredRows(Rows(other, dimension), other, dimension) && MeasuredSessions(SessionRows(other), other)
    {
      EnumerationsPermute(spans, other, expected);
      RowsPermute(spans, other, dimension);
      SessionsPermute(spans, other);
      RowsMeasure(other, dimension);
      SessionsMeasure(other);
    }
  }

  /** `llm_aggregate_in`: exact in every dimension, under any window, mask and tenant scope. The session dimension
      folds unscoped and narrows afterwards, the others fold under the scope. */
  method LlmAggregateIn(buffer: seq<Span>, segments: seq<Segment>, query: Query, dimension: Dimension,
                        found: seq<Option<SegmentRollup>>, hash: KeyHash)
    returns (merged: map<Group, Counters>)
    requires UniqueKeys(buffer) && forall i :: 0 <= i < |segments| ==> UniqueKeys(segments[i].spans)
    requires Bound(found, segments, hash)
    ensures ExactRows(merged, dimension, Reference(buffer, segments, query))
  {
    hide Rows, ExactRows, Enumerates, Reference, OfTenant, TenantSpans, MergedRows;
    var narrowed := if dimension.BySession? then query.tenant else None;
    var scope := if dimension.BySession? then None else query.tenant;
    var visits, parts := FoldAnalytics(buffer, segments, query.(tenant := scope), found, hash);
    merged := map[];
    ghost var folded: seq<Span> := [];
    NoRows(dimension, narrowed);
    for i := 0 to |visits|
      invariant folded == Flat(parts[..i])
      invariant merged == OfTenant(Rows(folded, dimension), narrowed)
    {
      RollupRows(visits[i], parts[i], hash, dimension);
      var rows := OfTenant(visits[i].Dimension(dimension), narrowed);
      NarrowedAppend(folded, parts[i], dimension, narrowed);
      merged := MergeRows(merged, rows);
      FlatStep(parts, i);
      folded := folded + parts[i];
    }
    assert parts[..|visits|] == parts;
    if dimension.BySession? {
      TenantReference(folded, buffer, segments, query.(tenant := None), query.tenant);
      TenantRows(folded, query.tenant);
      AnyOrder(TenantSpans(folded, query.tenant), dimension, Reference(buffer, segments, query));
      assert query.(tenant := None).(tenant := query.tenant) == query;
    } else {
      NotNarrowed(Rows(folded, dimension));
      AnyOrder(folded, dimension, Reference(buffer, segments, query));
      assert query.(tenant := query.tenant) == query;
    }
  }

  lemma NoRows(dimension: Dimension, tenant: Option<string>)
    ensures OfTenant(Rows([], dimension), tenant) == map[]
    ensures OfTenant(SessionRows([]), tenant) == map[]
  {
    assert GroupsOf([], dimension) == {} && GroupsOf([], BySession) == {};
  }

  lemma NotNarrowed<T>(rows: map<Group, T>)
    ensures OfTenant(rows, None) == rows
  {
  }

  lemma RollupRows(rollup: SegmentRollup, spans: seq<Span>, hash: KeyHash, dimension: Dimension)
    requires IsRollupOf(rollup, spans, hash)
    ensures rollup.Dimension(dimension) == Rows(spans, dimension)
  {
  }

  lemma FlatStep(parts: seq<seq<Span>>, i: nat)
    requires i < |parts|
    ensures Flat(parts[..i + 1]) == Flat(parts[..i]) + parts[i]
  {
    assert parts[..i + 1][..i] == parts[..i];
  }

  lemma NarrowedAppend(left: seq<Span>, right: seq<Span>, dimension: Dimension, tenant: Option<string>)
    ensures OfTenant(Rows(left + right, dimension), tenant) ==
            MergedRows(OfTenant(Rows(left, dimension), tenant), OfTenant(Rows(right, dimension), tenant))
  {
    hide Rows, Counters.Merge;
    RowsAppend(left, right, dimension);
  }

  lemma NarrowedSessionsAppend(left: seq<Span>, right: seq<Span>, tenant: Option<string>)
    ensures OfTenant(SessionRows(left + right), tenant) ==
            MergedSessions(OfTenant(SessionRows(left), tenant), OfTenant(SessionRows(right), tenant))
  {
    hide SessionRows, SessionCounters.Merge;
    SessionsAppend(left, right);
  }

  /** `sessions_in`, before ranking: the fold is never scoped, the rows are narrowed by their own tenant. */
  method SessionsIn(buffer: seq<Span>, segments: seq<Segment>, query: Query, found: seq<Option<SegmentRollup>>,
                    hash: KeyHash)
    returns (merged: map<Group, SessionCounters>)
    requires UniqueKeys(buffer) && forall i :: 0 <= i < |segments| ==> UniqueKeys(segments[i].spans)
    requires Bound(found, segments, hash)
    ensures ExactSessions(merged, Reference(buffer, segments, query))
  {
    hide SessionRows, ExactSessions, Enumerates, Reference, OfTenant, TenantSpans, MergedSessions;
    var visits, parts := FoldAnalytics(buffer, segments, query.(tenant := None), found, hash);
    merged := map[];
    ghost var folded: seq<Span> := [];
    NoRows(BySession, query.tenant);
    for i := 0 to |visits|
      invariant folded == Flat(parts[..i])
      invariant merged == OfTenant(SessionRows(folded), query.tenant)
    {
      assert IsRollupOf(visits[i], parts[i], hash);
      var rows := OfTenant(visits[i].sessions, query.tenant);
      NarrowedSessionsAppend(folded, parts[i], query.tenant);
      merged := MergeSessions(merged, rows);
      FlatStep(parts, i);
      folded := folded + parts[i];
    }
    assert parts[..|visits|] == parts;
    TenantReference(folded, buffer, segments, query.(tenant := None), query.tenant);
    TenantRows(folded, query.tenant);
    AnyOrder(TenantSpans(folded, query.tenant), BySession, Reference(buffer, segments, query));
    assert query.(tenant := None).(tenant := query.tenant) == query;
  }
}

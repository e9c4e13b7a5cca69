/** `SegmentRollup`: what a segment (or any other list of spans) contributes to every dimension at once. */
module Rollup {
  import opened Common
  import opened Counters
  import opened Sessions

  /** The hash behind the supersede prefilter is any function at all; collisions are allowed. */
  type KeyHash = Key -> nat

  datatype SegmentRollup = SegmentRollup(minStart: U64, maxStart: U64, minEnd: U64, maxEnd: U64,
                                         byModel: map<Group, Counters>, byProvider: map<Group, Counters>,
                                         byService: map<Group, Counters>, byDay: map<Group, Counters>,
                                         bySessionKey: map<Group, Counters>, sessions: map<Group, SessionCounters>,
                                         keyHashes: set<nat>) {
    function Dimension(dimension: Dimension): map<Group, Counters> {
      match dimension
      case ByModel => byModel
      case ByProvider => byProvider
      case ByService => byService
      case ByDay => byDay
      case BySession => bySessionKey
    }
  }

  // ---------------------------------------------------------------- what a rollup has to say

  function LeastStart(spans: seq<Span>): U64 {
    if spans == [] then U64_MAX else Min(LeastStart(spans[..|spans| - 1]), spans[|spans| - 1].start)
  }

  function GreatestStart(spans: seq<Span>): U64 {
    if spans == [] then 0 else Max(GreatestStart(spans[..|spans| - 1]), spans[|spans| - 1].start)
  }

  function LeastEnd(spans: seq<Span>): U64 {
    if spans == [] then U64_MAX else Min(LeastEnd(spans[..|spans| - 1]), spans[|spans| - 1].end)
  }

  function GreatestEnd(spans: seq<Span>): U64 {
    if spans == [] then 0 else Max(GreatestEnd(spans[..|spans| - 1]), spans[|spans| - 1].end)
  }

  function KeyHashes(spans: seq<Span>, hash: KeyHash): set<nat> {
    set i | 0 <= i < |spans| :: hash(spans[i].key)
  }

  /** The rollup of `spans`, before the sentinel minima are settled. */
  ghost predicate Accumulates(rollup: SegmentRollup, spans: seq<Span>, hash: KeyHash) {
    && rollup.minStart == LeastStart(spans) && rollup.maxStart == GreatestStart(spans)
    && rollup.minEnd == LeastEnd(spans) && rollup.maxEnd == GreatestEnd(spans)
    && (forall dimension :: rollup.Dimension(dimension) == Rows(spans, dimension))
    && rollup.sessions == SessionRows(spans)
    && rollup.keyHashes == KeyHashes(spans, hash)
  }

  function Settled(least: U64): U64 {
    if least == U64_MAX then 0 else least
  }

  ghost predicate IsRollupOf(rollup: SegmentRollup, spans: seq<Span>, hash: KeyHash) {
    && rollup.minStart == Settled(LeastStart(spans)) && rollup.maxStart == GreatestStart(spans)
    && rollup.minEnd == Settled(LeastEnd(spans)) && rollup.maxEnd == GreatestEnd(spans)
    && (forall dimension :: rollup.Dimension(dimension) == Rows(spans, dimension))
    && rollup.sessions == SessionRows(spans)
    && rollup.keyHashes == KeyHashes(spans, hash)
  }

  lemma {:induction false} StartsBounded(spans: seq<Span>)
    ensures forall i :: 0 <= i < |spans| ==> LeastStart(spans) <= spans[i].start <= GreatestStart(spans)
  {
    if spans != [] {
      var front := spans[..|spans| - 1];
      StartsBounded(front);
      assert forall i :: 0 <= i < |front| ==> front[i] == spans[i];
    }
  }

  // ---------------------------------------------------------------- building one

  function AbsorbInto(rows: map<Group, Counters>, group: Option<Group>, span: Span): map<Group, Counters> {
    if group.None? then rows
    else rows[group.value := (if group.value in rows then rows[group.value] else ZERO).Absorb(span)]
  }

  lemma RowsStep(spans: seq<Span>, last: Span, dimension: Dimension)
    ensures Rows(spans + [last], dimension) == AbsorbInto(Rows(spans, dimension), GroupOf(dimension, last), last)
  {
    hide GroupOf, Tally, Rows;
    RowsAppend(spans, [last], dimension);
    OneRow(last, dimension);
    MergeOneRow(Rows(spans, dimension), GroupOf(dimension, last), last);
  }

  lemma MergeOneRow(rows: map<Group, Counters>, group: Option<Group>, last: Span)
    ensures MergedRows(rows, if group.Some? then map[group.value := One(last)] else map[]) ==
            AbsorbInto(rows, group, last)
  {
    hide One;
    var merged := MergedRows(rows, if group.Some? then map[group.value := One(last)] else map[]);
    var absorbed := AbsorbInto(rows, group, last);
    assert merged.Keys == absorbed.Keys;
    forall other | other in merged
      ensures merged[other] == absorbed[other]
    {
      var before := if other in rows then rows[other] else ZERO;
      AbsorbIsMerge(before, last);
      MergeZero(before);
    }
  }

  lemma OneGroup(last: Span, dimension: Dimension)
    ensures GroupsOf([last], dimension) ==
            if GroupOf(dimension, last).Some? then {GroupOf(dimension, last).value} else {}
  {
    hide GroupOf;
    assert [last][0] == last;
  }

  lemma OneRow(last: Span, dimension: Dimension)
    ensures var group := GroupOf(dimension, last);
            Rows([last], dimension) == if group.Some? then map[group.value := One(last)] else map[]
  {
    hide GroupOf, GroupsOf;
    OneGroup(last, dimension);
    assert [last][..0] == [];
    assert GroupOf(dimension, last).Some? ==> Tally([last], dimension, GroupOf(dimension, last).value) == One(last);
  }

  lemma SessionsStep(spans: seq<Span>, last: Span)
    ensures var group := GroupOf(BySession, last);
            var rows := SessionRows(spans);
            SessionRows(spans + [last]) ==
            if group.None? then rows
            else rows[group.value := (if group.value in rows then rows[group.value] else NO_SESSION).Absorb(last)]
  {
    hide GroupOf, SessionRow;
    SessionsAppend(spans, [last]);
    OneSession(last);
    var group := GroupOf(BySession, last);
    if group.Some? {
      SessionNamed(last, group.value);
      var rows := SessionRows(spans);
      AbsorbIsMergeOne(if group.value in rows then rows[group.value] else NO_SESSION, last);
    }
  }

  lemma OneSession(last: Span)
    ensures var group := GroupOf(BySession, last);
            SessionRows([last]) == if group.Some? then map[group.value := NO_SESSION.Absorb(last)] else map[]
  {
    hide GroupOf, GroupsOf;
    OneGroup(last, BySession);
    assert [last][..0] == [];
    assert GroupOf(BySession, last).Some? ==>
        SessionRow([last], GroupOf(BySession, last).value) == NO_SESSION.Absorb(last);
  }

  function Absorb(rollup: SegmentRollup, span: Span, hash: KeyHash): SegmentRollup {
    var session := GroupOf(BySession, span);
    SegmentRollup(
      Min(rollup.minStart, span.start), Max(rollup.maxStart, span.start),
      Min(rollup.minEnd, span.end), Max(rollup.maxEnd, span.end),
      AbsorbInto(rollup.byModel, GroupOf(ByModel, span), span),
      AbsorbInto(rollup.byProvider, GroupOf(ByProvider, span), span),
      AbsorbInto(rollup.byService, GroupOf(ByService, span), span),
      AbsorbInto(rollup.byDay, GroupOf(ByDay, span), span),
      AbsorbInto(rollup.bySessionKey, session, span),
      if session.None? then rollup.sessions
      else rollup.sessions[session.value := (if session.value in rollup.sessions then rollup.sessions[session.value]
                                             else NO_SESSION).Absorb(span)],
      rollup.keyHashes + {hash(span.key)})
  }

  lemma AbsorbAccumulates(rollup: SegmentRollup, spans: seq<Span>, last: Span, hash: KeyHash)
    requires Accumulates(rollup, spans, hash)
    ensures Accumulates(Absorb(rollup, last, hash), spans + [last], hash)
  {
    hide GroupOf, Rows, SessionRows, AbsorbInto;
    var next := Absorb(rollup, last, hash);
    assert (spans + [last])[..|spans|] == spans;
    forall dimension
      ensures next.Dimension(dimension) == Rows(spans + [last], dimension)
    {
      RowsStep(spans, last, dimension);
      assert rollup.Dimension(dimension) == Rows(spans, dimension);
    }
    SessionsStep(spans, last);
    HashesStep(spans, last, hash);
  }

  lemma HashesStep(spans: seq<Span>, last: Span, hash: KeyHash)
    ensures KeyHashes(spans + [last], hash) == KeyHashes(spans, hash) + {hash(last.key)}
  {
    var all := spans + [last];
    assert all[|spans|] == last;
    forall i | 0 <= i < |spans|
      ensures hash(spans[i].key) in KeyHashes(all, hash)
    {
      assert all[i] == spans[i];
    }
  }

  method Build(spans: seq<Span>, hash: KeyHash) returns (rollup: SegmentRollup)
    ensures IsRollupOf(rollup, spans, hash)
    ensures Bounds(rollup, spans)
  {
    hide GroupOf, Rows, SessionRows, Absorb;
    rollup := SegmentRollup(U64_MAX, 0, U64_MAX, 0, map[], map[], map[], map[], map[], map[], {});
    NothingAccumulated(hash);
    for i := 0 to |spans|
      invariant Accumulates(rollup, spans[..i], hash)
    {
      AbsorbAccumulates(rollup, spans[..i], spans[i], hash);
      assert spans[..i + 1] == spans[..i] + [spans[i]];
      rollup := Absorb(rollup, spans[i], hash);
    }
    assert spans[..|spans|] == spans;
    ghost var unsettled := rollup;
    rollup := rollup.(minStart := Settled(rollup.minStart), minEnd := Settled(rollup.minEnd));
    assert forall dimension :: rollup.Dimension(dimension) == unsettled.Dimension(dimension);
    BoundsHold(rollup, spans, hash);
  }

  lemma BoundsHold(rollup: SegmentRollup, spans: seq<Span>, hash: KeyHash)
    requires IsRollupOf(rollup, spans, hash)
    ensures Bounds(rollup, spans)
  {
    hide Rows, SessionRows, KeyHashes;
    BoundsReached(spans);
    StartsBounded(spans);
    EndsBounded(spans);
  }

  /** The times bound every span's and are some span's; a least time is 0 where no span is below the largest instant. */
  ghost predicate Bounds(rollup: SegmentRollup, spans: seq<Span>) {
    && (forall span :: span in spans ==>
          rollup.minStart <= span.start <= rollup.maxStart && rollup.minEnd <= span.end <= rollup.maxEnd)
    && (if spans == [] then rollup.maxStart == rollup.maxEnd == 0
        else (exists span :: span in spans && span.start == rollup.maxStart)
             && exists span :: span in spans && span.end == rollup.maxEnd)
    && (if forall span :: span in spans ==> span.start == U64_MAX then rollup.minStart == 0
        else exists span :: span in spans && span.start == rollup.minStart)
    && (if forall span :: span in spans ==> span.end == U64_MAX then rollup.minEnd == 0
        else exists span :: span in spans && span.end == rollup.minEnd)
  }

  lemma {:induction false} BoundsReached(spans: seq<Span>)
    ensures spans != [] ==> exists span :: span in spans && span.start == GreatestStart(spans)
    ensures spans != [] ==> exists span :: span in spans && span.end == GreatestEnd(spans)
    ensures LeastStart(spans) == U64_MAX || exists span :: span in spans && span.start == LeastStart(spans)
    ensures LeastEnd(spans) == U64_MAX || exists span :: span in spans && span.end == LeastEnd(spans)
  {
    if spans != [] {
      var front, last := spans[..|spans| - 1], spans[|spans| - 1];
      BoundsReached(front);
      assert forall span :: span in front ==> span in spans;
      assert last in spans;
      if last.start >= GreatestStart(front) {
        assert last.start == GreatestStart(spans);
      }
      if last.end >= GreatestEnd(front) {
        assert last.end == GreatestEnd(spans);
      }
      if last.start < LeastStart(front) {
        assert last.start == LeastStart(spans);
      }
      if last.end < LeastEnd(front) {
        assert last.end == LeastEnd(spans);
      }
    }
  }

  lemma {:induction false} EndsBounded(spans: seq<Span>)
    ensures forall i :: 0 <= i < |spans| ==> LeastEnd(spans) <= spans[i].end <= GreatestEnd(spans)
  {
    if spans != [] {
      var front := spans[..|spans| - 1];
      EndsBounded(front);
      assert forall i :: 0 <= i < |front| ==> front[i] == spans[i];
    }
  }

  lemma NothingAccumulated(hash: KeyHash)
    ensures Accumulates(SegmentRollup(U64_MAX, 0, U64_MAX, 0, map[], map[], map[], map[], map[], map[], {}), [], hash)
  {
    forall dimension
      ensures Rows([], dimension) == map[]
    {
      NoRows(dimension);
    }
    assert SessionRows([]) == map[] && KeyHashes([], hash) == {};
    hide Rows;
  }

  lemma NoRows(dimension: Dimension)
    ensures Rows([], dimension) == map[]
  {
    hide GroupOf, Tally;
    assert GroupsOf([], dimension) == {};
  }
}

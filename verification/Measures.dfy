/** What the counters of a row count, said of the spans themselves: every field is the sum of its own measure over the
    spans of the row's group, capped at the largest `u64`. Nothing here goes through absorbing or merging. */
module Measures {
  import opened Common
  import opened Counters
  import opened Sessions
  import Instants

  function Capped(n: nat): U64 {
    if n > U64_MAX then U64_MAX else n
  }

  function SumOf(spans: seq<Span>, measure: Span -> nat): nat {
    if spans == [] then 0 else SumOf(spans[..|spans| - 1], measure) + measure(spans[|spans| - 1])
  }

  function AmountOf(spans: seq<Span>, measure: Span -> real): real {
    if spans == [] then 0.0 else AmountOf(spans[..|spans| - 1], measure) + measure(spans[|spans| - 1])
  }

  // ---------------------------------------------------------------- the measures

  function Prompted(span: Span): nat { if span.facts.prompt.Some? then span.facts.prompt.value else 0 }

  function Completed(span: Span): nat { if span.facts.completion.Some? then span.facts.completion.value else 0 }

  /** The reported total, or else what was prompted and completed together. */
  function Totalled(span: Span): nat {
    if span.facts.total.Some? then span.facts.total.value else Capped(Prompted(span) + Completed(span))
  }

  function Calls(span: Span): nat { if span.facts.isLlm then 1 else 0 }

  function Failed(span: Span): nat { if span.status == "error" then 1 else 0 }

  function Lasted(span: Span): nat {
    if span.facts.isLlm && span.start < span.end then span.end - span.start else 0
  }

  function MeteredOnce(span: Span): nat { match span.facts.cost case Metered(_) => 1 case _ => 0 }

  function DerivedOnce(span: Span): nat { match span.facts.cost case Derived(_) => 1 case _ => 0 }

  /** A call without a price; a span that is no call cannot lack one. */
  function WithoutPrice(span: Span): nat {
    match span.facts.cost
    case Unpriced => Calls(span)
    case _ => 0
  }

  function Costing(span: Span): real {
    match span.facts.cost
    case Unpriced => 0.0
    case Metered(usd) => usd
    case Derived(usd) => usd
  }

  function CostingByTable(span: Span): real { match span.facts.cost case Derived(usd) => usd case _ => 0.0 }

  // ---------------------------------------------------------------- the spans of a group

  /** What makes a span one of a group: the text of the group is what the span says of itself. */
  predicate Joins(span: Span, dimension: Dimension, group: Group) {
    match dimension
    case ByModel => group.0 == "" && span.facts.model == Some(group.1)
    case ByProvider => group.0 == "" && span.facts.provider == Some(group.1)
    case ByService => group.0 == "" && span.service == group.1
    case ByDay => group.0 == "" && Instants.Rfc3339(span.start)[..10] == group.1
    case BySession =>
      group.0 == span.key.tenant && exists key :: span.facts.session == Some((group.1, key))
  }

  ghost function Joining(spans: seq<Span>, dimension: Dimension, group: Group): seq<Span> {
    if spans == [] then []
    else
      Joining(spans[..|spans| - 1], dimension, group)
      + if Joins(spans[|spans| - 1], dimension, group) then [spans[|spans| - 1]] else []
  }

  lemma JoinsItsGroup(span: Span, dimension: Dimension, group: Group)
    ensures Joins(span, dimension, group) <==> GroupOf(dimension, span) == Some(group)
  {
    hide Instants.Rfc3339, Instants.DayBucket;
    Instants.DayBucketIsDatePart(span.start);
    if dimension.BySession? && span.facts.session.Some? {
      var session := span.facts.session.value;
      assert session == (session.0, session.1);
    }
  }

  // ---------------------------------------------------------------- one clause a field

  ghost predicate Measured(row: Counters, spans: seq<Span>) {
    && row.spans == Capped(|spans|)
    && row.llmCalls == Capped(SumOf(spans, Calls))
    && row.prompt == Capped(SumOf(spans, Prompted))
    && row.completion == Capped(SumOf(spans, Completed))
    && row.total == Capped(SumOf(spans, Totalled))
    && row.usd == AmountOf(spans, Costing)
    && row.derivedUsd == AmountOf(spans, CostingByTable)
    && row.meteredCalls == Capped(SumOf(spans, MeteredOnce))
    && row.derivedCalls == Capped(SumOf(spans, DerivedOnce))
    && row.unpricedCalls == Capped(SumOf(spans, WithoutPrice))
    && row.errors == Capped(SumOf(spans, Failed))
    && row.llmDuration == Capped(SumOf(spans, Lasted))
  }

  lemma SumNext(spans: seq<Span>, last: Span, measure: Span -> nat)
    ensures SumOf(spans + [last], measure) == SumOf(spans, measure) + measure(last)
  {
    assert (spans + [last])[..|spans|] == spans;
  }

  lemma AmountNext(spans: seq<Span>, last: Span, measure: Span -> real)
    ensures AmountOf(spans + [last], measure) == AmountOf(spans, measure) + measure(last)
  {
    assert (spans + [last])[..|spans|] == spans;
  }

  lemma MeasuredNext(row: Counters, spans: seq<Span>, last: Span)
    requires Measured(row, spans)
    ensures Measured(row.Absorb(last), spans + [last])
  {
    SumNext(spans, last, Calls);
    SumNext(spans, last, Prompted);
    SumNext(spans, last, Completed);
    SumNext(spans, last, Totalled);
    SumNext(spans, last, MeteredOnce);
    SumNext(spans, last, DerivedOnce);
    SumNext(spans, last, WithoutPrice);
    SumNext(spans, last, Failed);
    SumNext(spans, last, Lasted);
    AmountNext(spans, last, Costing);
    AmountNext(spans, last, CostingByTable);
    hide SumOf, AmountOf;
  }

  lemma {:induction false} TallyMeasures(spans: seq<Span>, dimension: Dimension, group: Group)
    ensures Measured(Tally(spans, dimension, group), Joining(spans, dimension, group))
  {
    if spans == [] {
      NothingMeasured();
    } else {
      var front, last := spans[..|spans| - 1], spans[|spans| - 1];
      TallyMeasures(front, dimension, group);
      JoinsItsGroup(last, dimension, group);
      hide Measured, GroupOf, Joins;
      if Joins(last, dimension, group) {
        MeasuredNext(Tally(front, dimension, group), Joining(front, dimension, group), last);
      } else {
        assert Joining(front, dimension, group) + [] == Joining(front, dimension, group);
      }
    }
  }

  lemma NothingMeasured()
    ensures Measured(ZERO, [])
  {
  }

  /** Rows over some spans: one for each group that some span joins, and each counts exactly its group's spans. */
  ghost predicate MeasuredRows(rows: map<Group, Counters>, spans: seq<Span>, dimension: Dimension) {
    forall group ::
      && (group in rows <==> Joining(spans, dimension, group) != [])
      && (group in rows ==> Measured(rows[group], Joining(spans, dimension, group)))
  }

  lemma {:induction false} JoiningIsThere(spans: seq<Span>, dimension: Dimension, group: Group)
    ensures Joining(spans, dimension, group) != [] <==> group in GroupsOf(spans, dimension)
  {
    NothingJoins(dimension, group);
    hide Joining, GroupsOf, Joins, GroupOf;
    if spans != [] {
      var front, last := spans[..|spans| - 1], spans[|spans| - 1];
      assert spans == front + [last];
      JoiningIsThere(front, dimension, group);
      JoiningNext(front, last, dimension, group);
      JoinsItsGroup(last, dimension, group);
      GroupsNext(front, last, dimension, group);
    }
  }

  lemma NothingJoins(dimension: Dimension, group: Group)
    ensures Joining([], dimension, group) == [] && GroupsOf([], dimension) == {}
  {
    hide GroupOf;
  }

  lemma JoiningNext(front: seq<Span>, last: Span, dimension: Dimension, group: Group)
    ensures Joining(front + [last], dimension, group)
            == Joining(front, dimension, group) + if Joins(last, dimension, group) then [last] else []
  {
    hide Joins;
    assert (front + [last])[..|front|] == front;
  }

  lemma GroupsNext(front: seq<Span>, last: Span, dimension: Dimension, group: Group)
    ensures group in GroupsOf(front + [last], dimension) <==>
            group in GroupsOf(front, dimension) || GroupOf(dimension, last) == Some(group)
  {
    hide GroupOf;
    GroupsAppend(front, [last], dimension);
    assert [last][0] == last;
  }

  lemma RowsMeasure(spans: seq<Span>, dimension: Dimension)
    ensures MeasuredRows(Rows(spans, dimension), spans, dimension)
  {
    hide Joining, Measured, Tally, GroupsOf;
    forall group
      ensures group in Rows(spans, dimension) <==> Joining(spans, dimension, group) != []
      ensures group in Rows(spans, dimension) ==>
                Measured(Rows(spans, dimension)[group], Joining(spans, dimension, group))
    {
      JoiningIsThere(spans, dimension, group);
      TallyMeasures(spans, dimension, group);
    }
  }

  // ---------------------------------------------------------------- session rows

  ghost predicate NamedWith(members: seq<Span>, key: SessionKey) {
    exists i :: 0 <= i < |members| && members[i].facts.session.Some? && members[i].facts.session.value.1 == key
  }

  /** The attribute a session is named by is the first of the four that some span of it was named by. */
  ghost predicate NamedFirst(key: Option<SessionKey>, members: seq<Span>) {
    key == if NamedWith(members, SessionId) then Some(SessionId)
           else if NamedWith(members, ConversationId) then Some(ConversationId)
           else if NamedWith(members, TraceloopSession) then Some(TraceloopSession)
           else if NamedWith(members, TraceloopChat) then Some(TraceloopChat)
           else None
  }

  ghost predicate MeasuredSession(row: SessionCounters, members: seq<Span>) {
    && Measured(row.counters, members) && NamedFirst(row.sessionKey, members)
    && (forall i :: 0 <= i < |members| ==> row.firstStart <= members[i].start && members[i].end <= row.lastEnd)
    && (exists i :: 0 <= i < |members| && members[i].start == row.firstStart)
    && (exists i :: 0 <= i < |members| && members[i].end == row.lastEnd)
    && (forall trace :: trace in row.traces <==> exists i :: 0 <= i < |members| && members[i].key.traceId == trace)
  }

  ghost predicate MeasuredSessions(rows: map<Group, SessionCounters>, spans: seq<Span>) {
    forall session ::
      && (session in rows <==> Joining(spans, BySession, session) != [])
      && (session in rows ==> MeasuredSession(rows[session], Joining(spans, BySession, session)))
  }

  lemma {:induction false} JoiningHolds(spans: seq<Span>, dimension: Dimension, group: Group)
    ensures forall span :: span in Joining(spans, dimension, group) <==> span in spans && Joins(span, dimension, group)
  {
    hide Joins;
    if spans != [] {
      JoiningHolds(spans[..|spans| - 1], dimension, group);
      assert spans == spans[..|spans| - 1] + [spans[|spans| - 1]];
    }
  }

  lemma RowIsMeasured(spans: seq<Span>, session: Group)
    requires Joining(spans, BySession, session) != []
    ensures MeasuredSession(SessionRow(spans, session), Joining(spans, BySession, session))
  {
    var row, members := SessionRow(spans, session), Joining(spans, BySession, session);
    RowDescribes(spans, session);
    TallyMeasures(spans, BySession, session);
    JoiningHolds(spans, BySession, session);
    forall span
      ensures Member(span, session) <==> Joins(span, BySession, session)
    {
      JoinsItsGroup(span, BySession, session);
    }
    hide Joins, Member, Joining, Measured, Tally, SessionRow, MeasuredSession;
    assert members[0] in members;
    assert !Empty(spans, session);
    DescribedIsMeasured(row, spans, members, session);
  }

  lemma DescribedIsMeasured(row: SessionCounters, spans: seq<Span>, members: seq<Span>, session: Group)
    requires Measured(row.counters, members) && members != []
    requires Covers(row, spans, session) && Attained(row, spans, session)
    requires forall span :: span in members <==> span in spans && Member(span, session)
    ensures MeasuredSession(row, members)
  {
    hide Measured, Member;
    forall i | 0 <= i < |members|
      ensures CoversSpan(row, members[i])
    {
      assert members[i] in members;
    }
    var first :| first in spans && Member(first, session) && first.start == row.firstStart;
    assert first in members;
    if row.lastEnd == 0 {
      assert members[0].end == row.lastEnd;
    } else {
      var last :| last in spans && Member(last, session) && last.end == row.lastEnd;
      assert last in members;
    }
    TracesAre(row, spans, members, session);
    NamesAre(row, spans, members, session);
  }

  lemma TracesAre(row: SessionCounters, spans: seq<Span>, members: seq<Span>, session: Group)
    requires Covers(row, spans, session) && Attained(row, spans, session)
    requires forall span :: span in members <==> span in spans && Member(span, session)
    ensures forall trace :: trace in row.traces <==> exists i :: 0 <= i < |members| && members[i].key.traceId == trace
  {
    hide Member;
    forall trace
      ensures trace in row.traces <==> exists i :: 0 <= i < |members| && members[i].key.traceId == trace
    {
      if trace in row.traces {
        var span :| span in spans && Member(span, session) && span.key.traceId == trace;
        assert span in members;
        var i :| 0 <= i < |members| && members[i] == span;
      }
      if i :| 0 <= i < |members| && members[i].key.traceId == trace {
        assert members[i] in members && CoversSpan(row, members[i]);
      }
    }
  }

  lemma NamesAre(row: SessionCounters, spans: seq<Span>, members: seq<Span>, session: Group)
    requires Covers(row, spans, session) && Attained(row, spans, session)
    requires forall span :: span in members <==> span in spans && Member(span, session)
    ensures NamedFirst(row.sessionKey, members)
  {
    hide Member;
    var named :| named in spans && Member(named, session) && named.facts.session.Some?
                 && row.sessionKey == Some(named.facts.session.value.1);
    assert named in members;
    assert NamedWith(members, row.sessionKey.value);
    forall key | NamedWith(members, key)
      ensures row.sessionKey.value.Rank() <= key.Rank()
    {
      var i :| 0 <= i < |members| && members[i].facts.session.Some? && members[i].facts.session.value.1 == key;
      assert members[i] in members && CoversSpan(row, members[i]);
    }
    hide NamedWith;
    RankOrder(row.sessionKey.value);
  }

  /** No other attribute comes before the first. */
  lemma RankOrder(key: SessionKey)
    ensures SessionId.Rank() < ConversationId.Rank() < TraceloopSession.Rank() < TraceloopChat.Rank()
    ensures key == SessionId || key == ConversationId || key == TraceloopSession || key == TraceloopChat
  {
  }

  lemma SessionsMeasure(spans: seq<Span>)
    ensures MeasuredSessions(SessionRows(spans), spans)
  {
    hide Joining, MeasuredSession, SessionRow, GroupsOf;
    forall session
      ensures session in SessionRows(spans) <==> Joining(spans, BySession, session) != []
      ensures session in SessionRows(spans) ==>
                MeasuredSession(SessionRows(spans)[session], Joining(spans, BySession, session))
    {
      JoiningIsThere(spans, BySession, session);
      if Joining(spans, BySession, session) != [] {
        RowIsMeasured(spans, session);
      }
    }
  }
}

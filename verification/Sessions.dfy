/** Session rows: the counters of a session together with its time range, its traces and the attribute that named it. */
module Sessions {
  import opened Common
  import opened Counters

  /** Keeps the higher-precedence session key. */
  function PreferKey(current: Option<SessionKey>, candidate: Option<SessionKey>): Option<SessionKey> {
    if current.None? then candidate
    else if candidate.None? then current
    else if candidate.value.Rank() < current.value.Rank() then candidate
    else current
  }

  datatype SessionCounters = SessionCounters(counters: Counters, firstStart: U64, lastEnd: U64, traces: set<string>,
                                             sessionKey: Option<SessionKey>) {
    function Absorb(span: Span): SessionCounters {
      SessionCounters(
        counters.Absorb(span),
        if counters.spans == 0 || span.start < firstStart then span.start else firstStart,
        if span.end > lastEnd then span.end else lastEnd,
        traces + {span.key.traceId},
        PreferKey(sessionKey, if span.facts.session.Some? then Some(span.facts.session.value.1) else None))
    }

    function Merge(other: SessionCounters): SessionCounters {
      SessionCounters(
        counters.Merge(other.counters),
        if counters.spans == 0 || other.firstStart < firstStart then other.firstStart else firstStart,
        if other.lastEnd > lastEnd then other.lastEnd else lastEnd,
        traces + other.traces,
        PreferKey(sessionKey, other.sessionKey))
    }
  }

  const NO_SESSION: SessionCounters := SessionCounters(ZERO, 0, 0, {}, None)

  predicate Member(span: Span, session: Group) {
    GroupOf(BySession, span) == Some(session)
  }

  /** The row of a session over some spans, in the order they come. */
  function SessionRow(spans: seq<Span>, session: Group): SessionCounters {
    if spans == [] then NO_SESSION
    else
      var before := SessionRow(spans[..|spans| - 1], session);
      if Member(spans[|spans| - 1], session) then before.Absorb(spans[|spans| - 1]) else before
  }

  ghost function SessionRows(spans: seq<Span>): map<Group, SessionCounters> {
    map session | session in GroupsOf(spans, BySession) :: SessionRow(spans, session)
  }

  // ---------------------------------------------------------------- what a row means

  ghost predicate Empty(spans: seq<Span>, session: Group) {
    forall span :: span in spans ==> !Member(span, session)
  }

  /** The row without reference to any order: sums, extremes and unions over the session's spans. */
  ghost predicate Describes(row: SessionCounters, spans: seq<Span>, session: Group) {
    && row.counters == Tally(spans, BySession, session)
    && (row.counters.spans == 0 <==> Empty(spans, session))
    && (Empty(spans, session) ==> row == NO_SESSION)
    && Covers(row, spans, session)
    && (!Empty(spans, session) ==> Attained(row, spans, session))
  }

  ghost predicate Covers(row: SessionCounters, spans: seq<Span>, session: Group) {
    forall span :: span in spans && Member(span, session) ==> CoversSpan(row, span)
  }

  predicate CoversSpan(row: SessionCounters, span: Span) {
    && row.firstStart <= span.start && span.end <= row.lastEnd && span.key.traceId in row.traces
    && span.facts.session.Some?
    && row.sessionKey.Some? && row.sessionKey.value.Rank() <= span.facts.session.value.1.Rank()
  }

  ghost predicate Attained(row: SessionCounters, spans: seq<Span>, session: Group) {
    && (exists span :: span in spans && Member(span, session) && span.start == row.firstStart)
    && (row.lastEnd == 0 || exists span :: span in spans && Member(span, session) && span.end == row.lastEnd)
    && (exists span :: span in spans && Member(span, session) && span.facts.session.Some?
                       && row.sessionKey == Some(span.facts.session.value.1))
    && (forall trace :: trace in row.traces ==>
          exists span :: span in spans && Member(span, session) && span.key.traceId == trace)
  }

  lemma DescribesOne(row: SessionCounters, other: SessionCounters, left: seq<Span>, right: seq<Span>, session: Group)
    requires Describes(row, left, session) && Describes(other, right, session)
    requires Tally(left, BySession, session) == Tally(right, BySession, session)
    requires forall span :: span in left <==> span in right
    ensures row == other
  {
    hide GroupOf, Tally;
    if !Empty(left, session) {
      assert !Empty(right, session);
      assert row.firstStart == other.firstStart;
      assert row.lastEnd == other.lastEnd;
      assert row.traces == other.traces;
      RankIdentifies(row.sessionKey.value, other.sessionKey.value);
    }
  }

  lemma RankIdentifies(a: SessionKey, b: SessionKey)
    ensures a.Rank() == b.Rank() ==> a == b
  {
  }

  lemma MembersAppend(left: seq<Span>, right: seq<Span>, session: Group)
    ensures forall span :: span in left + right <==> span in left || span in right
    ensures Empty(left + right, session) <==> Empty(left, session) && Empty(right, session)
  {
    hide GroupOf;
    forall span
      ensures span in left + right <==> span in left || span in right
    {
    }
  }

  /** Merging two rows describes the spans of both, provided the second row has a span at all. */
  lemma MergeDescribes(row: SessionCounters, other: SessionCounters, left: seq<Span>, right: seq<Span>, session: Group)
    requires Describes(row, left, session) && Describes(other, right, session) && !Empty(right, session)
    ensures Describes(row.Merge(other), left + right, session)
  {
    hide GroupOf, Tally, Member, Covers, Attained, Empty;
    TallyAppend(left, right, BySession, session);
    MembersAppend(left, right, session);
    MergeCovers(row, other, left, right, session);
    if Empty(left, session) {
      MergeEmpty(row, other, left, right, session);
    } else {
      MergeAttained(row, other, left, right, session);
    }
  }

  lemma MergeCovers(row: SessionCounters, other: SessionCounters, left: seq<Span>, right: seq<Span>, session: Group)
    requires Covers(row, left, session) && Covers(other, right, session) && !Empty(right, session)
    requires row.counters.spans == 0 ==> Empty(left, session)
    ensures Covers(row.Merge(other), left + right, session)
  {
    hide Member;
    MembersAppend(left, right, session);
  }

  lemma MergeEmpty(row: SessionCounters, other: SessionCounters, left: seq<Span>, right: seq<Span>, session: Group)
    requires Empty(left, session) && row == NO_SESSION && Attained(other, right, session)
    ensures Attained(row.Merge(other), left + right, session)
  {
    hide Member;
    MembersAppend(left, right, session);
  }

  lemma MergeAttained(row: SessionCounters, other: SessionCounters, left: seq<Span>, right: seq<Span>, session: Group)
    requires Attained(row, left, session) && Attained(other, right, session) && row.counters.spans > 0
    ensures Attained(row.Merge(other), left + right, session)
  {
    hide Member;
    MembersAppend(left, right, session);
  }

  lemma {:induction false} RowDescribes(spans: seq<Span>, session: Group)
    ensures Describes(SessionRow(spans, session), spans, session)
  {
    hide GroupOf;
    if spans != [] {
      var front, last := spans[..|spans| - 1], spans[|spans| - 1];
      RowDescribes(front, session);
      assert spans == front + [last];
      MembersAppend(front, [last], session);
      if Member(last, session) {
        AbsorbDescribes(SessionRow(front, session), front, last, session);
      } else {
        StepDescribes(SessionRow(front, session), front, last, session);
      }
    }
  }

  lemma StepDescribes(row: SessionCounters, front: seq<Span>, last: Span, session: Group)
    requires Describes(row, front, session) && !Member(last, session)
    ensures Describes(row, front + [last], session)
  {
    hide GroupOf;
    MembersAppend(front, [last], session);
    assert (front + [last])[..|front|] == front;
  }

  /** Absorbing one span is merging in a row of one span. */
  lemma AbsorbDescribes(row: SessionCounters, front: seq<Span>, last: Span, session: Group)
    requires Describes(row, front, session) && Member(last, session)
    ensures Describes(row.Absorb(last), front + [last], session)
  {
    hide Describes, Member, GroupOf, Tally;
    var one := NO_SESSION.Absorb(last);
    OneDescribes(last, session);
    SessionNamed(last, session);
    AbsorbIsMergeOne(row, last);
    MergeDescribes(row, one, front, [last], session);
  }

  lemma OneDescribes(last: Span, session: Group)
    requires Member(last, session)
    ensures Describes(NO_SESSION.Absorb(last), [last], session) && !Empty([last], session)
  {
    hide GroupOf;
    var one := NO_SESSION.Absorb(last);
    var spans := [last];
    SessionNamed(last, session);
    assert spans[..0] == [];
    assert last in spans && forall span :: span in spans ==> span == last;
    assert one.counters == Tally(spans, BySession, session);
    assert one.counters.spans == 1 && !Empty(spans, session);
    assert Covers(one, spans, session);
    assert Attained(one, spans, session);
  }

  lemma SessionNamed(span: Span, session: Group)
    requires Member(span, session)
    ensures span.facts.session.Some?
  {
  }

  lemma AbsorbIsMergeOne(row: SessionCounters, last: Span)
    requires last.facts.session.Some?
    ensures row.Absorb(last) == row.Merge(NO_SESSION.Absorb(last))
  {
    AbsorbIsMerge(row.counters, last);
    assert NO_SESSION.traces + {last.key.traceId} == {last.key.traceId};
  }

  /** Rows of a concatenation, merged row by row as `sessions_in` does. */
  ghost function MergedSessions(left: map<Group, SessionCounters>, right: map<Group, SessionCounters>)
    : map<Group, SessionCounters>
  {
    map session | session in left.Keys + right.Keys ::
      if session in right then (if session in left then left[session] else NO_SESSION).Merge(right[session])
      else left[session]
  }

  lemma SessionsAppend(left: seq<Span>, right: seq<Span>)
    ensures SessionRows(left + right) == MergedSessions(SessionRows(left), SessionRows(right))
  {
    hide GroupOf, Tally, Describes, SessionRow;
    GroupsAppend(left, right, BySession);
    forall session | session in GroupsOf(left + right, BySession)
      ensures SessionRows(left + right)[session] == MergedSessions(SessionRows(left), SessionRows(right))[session]
    {
      SessionAppend(left, right, session);
    }
  }

  lemma EmptyRow(spans: seq<Span>, session: Group)
    ensures session in GroupsOf(spans, BySession) <==> !Empty(spans, session)
    ensures Empty(spans, session) ==> SessionRow(spans, session) == NO_SESSION
  {
    hide GroupOf;
    RowDescribes(spans, session);
    if !Empty(spans, session) {
      var span :| span in spans && Member(span, session);
      var i :| 0 <= i < |spans| && spans[i] == span;
      assert GroupOf(BySession, spans[i]).Some?;
    }
  }

  lemma SessionAppend(left: seq<Span>, right: seq<Span>, session: Group)
    ensures SessionRow(left + right, session) ==
            if session in GroupsOf(right, BySession) then SessionRow(left, session).Merge(SessionRow(right, session))
            else SessionRow(left, session)
    ensures session !in GroupsOf(left, BySession) ==> SessionRow(left, session) == NO_SESSION
  {
    hide GroupOf, Tally, SessionRow, Member, GroupsOf, Describes;
    EmptyRow(left, session);
    EmptyRow(right, session);
    RowDescribes(left, session);
    RowDescribes(right, session);
    RowDescribes(left + right, session);
    if Empty(right, session) {
      AppendEmpty(left, right, session);
    } else {
      var merged := SessionRow(left, session).Merge(SessionRow(right, session));
      MergeDescribes(SessionRow(left, session), SessionRow(right, session), left, right, session);
      DescribesOne(merged, SessionRow(left + right, session), left + right, left + right, session);
    }
  }

  lemma {:induction false} AppendEmpty(left: seq<Span>, right: seq<Span>, session: Group)
    requires Empty(right, session)
    ensures SessionRow(left + right, session) == SessionRow(left, session)
  {
    hide GroupOf;
    if right == [] {
      assert left + right == left;
    } else {
      var front := right[..|right| - 1];
      assert (left + right)[..|left + right| - 1] == left + front;
      AppendEmpty(left, front, session);
    }
  }

  lemma SessionsPermute(left: seq<Span>, right: seq<Span>)
    requires multiset(left) == multiset(right)
    ensures SessionRows(left) == SessionRows(right)
  {
    hide GroupOf, Tally, SessionRow, Describes;
    GroupsPermute(left, right, BySession);
    GroupsPermute(right, left, BySession);
    assert forall span :: span in left <==> span in multiset(left);
    assert forall span :: span in right <==> span in multiset(right);
    forall session
      ensures SessionRow(left, session) == SessionRow(right, session)
    {
      TallyPermutes(left, right, BySession, session);
      RowDescribes(left, session);
      RowDescribes(right, session);
      DescribesOne(SessionRow(left, session), SessionRow(right, session), left, right, session);
    }
  }
}

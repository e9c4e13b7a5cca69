/** The counters of `src/analytics.rs`: what one span adds, how counters merge, and why neither the order of the
    spans nor the way they are split into rollups can be seen in the result. */
module Counters {
  import opened Common
  import Instants

  // ---------------------------------------------------------------- spans

  /** The primary key. */
  datatype Key = Key(tenant: string, traceId: string, spanId: string)

  /** The recognized session attributes, in their order of precedence (`SESSION_KEYS`). */
  datatype SessionKey = SessionId | ConversationId | TraceloopSession | TraceloopChat {
    function Rank(): nat {
      match this
      case SessionId => 0
      case ConversationId => 1
      case TraceloopSession => 2
      case TraceloopChat => 3
    }
  }

  datatype Cost = Unpriced | Metered(usd: real) | Derived(usd: real)

  /** The normalized facts of a span, priced: what every group it joins counts. */
  datatype Facts = Facts(isLlm: bool, model: Option<string>, provider: Option<string>,
                         session: Option<(string, SessionKey)>, prompt: Option<U64>, completion: Option<U64>,
                         total: Option<U64>, cost: Cost) {
    function Total(): U64 {
      total.GetOr(SaturatingAdd(prompt.GetOr(0), completion.GetOr(0)))
    }
  }

  datatype Span = Span(key: Key, service: string, status: string, start: U64, end: U64, facts: Facts)

  // ---------------------------------------------------------------- counters

  datatype Counters = Counters(spans: U64, llmCalls: U64, prompt: U64, completion: U64, total: U64, usd: real,
                               derivedUsd: real, meteredCalls: U64, derivedCalls: U64, unpricedCalls: U64,
                               errors: U64, llmDuration: U64) {
    /** Folds one span in. */
    function Absorb(span: Span): Counters {
      var f := span.facts;
      var one := (counter: U64, yes: bool) => if yes then SaturatingAdd(counter, 1) else counter;
      Counters(
        SaturatingAdd(spans, 1),
        one(llmCalls, f.isLlm),
        SaturatingAdd(prompt, f.prompt.GetOr(0)),
        SaturatingAdd(completion, f.completion.GetOr(0)),
        SaturatingAdd(total, f.Total()),
        if f.cost.Unpriced? then usd else usd + f.cost.usd,
        if f.cost.Derived? then derivedUsd + f.cost.usd else derivedUsd,
        one(meteredCalls, f.cost.Metered?),
        one(derivedCalls, f.cost.Derived?),
        one(unpricedCalls, f.cost.Unpriced? && f.isLlm),
        one(errors, span.status == "error"),
        if f.isLlm then SaturatingAdd(llmDuration, SaturatingSub(span.end, span.start)) else llmDuration)
    }

    function Merge(other: Counters): Counters {
      Counters(
        SaturatingAdd(spans, other.spans),
        SaturatingAdd(llmCalls, other.llmCalls),
        SaturatingAdd(prompt, other.prompt),
        SaturatingAdd(completion, other.completion),
        SaturatingAdd(total, other.total),
        usd + other.usd,
        derivedUsd + other.derivedUsd,
        SaturatingAdd(meteredCalls, other.meteredCalls),
        SaturatingAdd(derivedCalls, other.derivedCalls),
        SaturatingAdd(unpricedCalls, other.unpricedCalls),
        SaturatingAdd(errors, other.errors),
        SaturatingAdd(llmDuration, other.llmDuration))
    }
  }

  const ZERO: Counters := Counters(0, 0, 0, 0, 0, 0.0, 0.0, 0, 0, 0, 0, 0)

  function One(span: Span): Counters { ZERO.Absorb(span) }

  lemma AbsorbIsMerge(counters: Counters, span: Span)
    ensures counters.Absorb(span) == counters.Merge(One(span))
  {
  }

  lemma MergeAssociative(a: Counters, b: Counters, c: Counters)
    ensures a.Merge(b).Merge(c) == a.Merge(b.Merge(c))
  {
  }

  lemma MergeCommutative(a: Counters, b: Counters)
    ensures a.Merge(b) == b.Merge(a)
  {
  }

  lemma MergeZero(a: Counters)
    ensures ZERO.Merge(a) == a && a.Merge(ZERO) == a
  {
  }

  // ---------------------------------------------------------------- groups

  datatype Dimension = ByModel | ByProvider | ByService | ByDay | BySession

  /** A group is named by a tenant and a text; only sessions use the tenant. */
  type Group = (string, string)

  /** The group of `dimension` that a span joins, if any. */
  function GroupOf(dimension: Dimension, span: Span): Option<Group> {
    match dimension
    case ByModel => if span.facts.model.Some? then Some(("", span.facts.model.value)) else None
    case ByProvider => if span.facts.provider.Some? then Some(("", span.facts.provider.value)) else None
    case ByService => Some(("", span.service))
    case ByDay => Some(("", Instants.DayBucket(span.start)))
    case BySession =>
      if span.facts.session.Some? then Some((span.key.tenant, span.facts.session.value.0)) else None
  }

  /** The sum of what the spans of one group add, in the order they come. */
  function Tally(spans: seq<Span>, dimension: Dimension, group: Group): Counters {
    if spans == [] then ZERO
    else
      var last := spans[|spans| - 1];
      var before := Tally(spans[..|spans| - 1], dimension, group);
      if GroupOf(dimension, last) == Some(group) then before.Absorb(last) else before
  }

  function GroupsOf(spans: seq<Span>, dimension: Dimension): set<Group> {
    set i | 0 <= i < |spans| && GroupOf(dimension, spans[i]).Some? :: GroupOf(dimension, spans[i]).value
  }

  /** The rows of one dimension over some spans: the reference the rollups have to agree with. */
  ghost function Rows(spans: seq<Span>, dimension: Dimension): map<Group, Counters> {
    map group | group in GroupsOf(spans, dimension) :: Tally(spans, dimension, group)
  }

  lemma {:induction false} TallyAppend(left: seq<Span>, right: seq<Span>, dimension: Dimension, group: Group)
    ensures Tally(left + right, dimension, group) == Tally(left, dimension, group).Merge(Tally(right, dimension, group))
  {
    hide GroupOf;
    if right == [] {
      assert left + right == left;
      MergeZero(Tally(left, dimension, group));
    } else {
      var front, last := right[..|right| - 1], right[|right| - 1];
      assert (left + right)[..|left + right| - 1] == left + front;
      TallyAppend(left, front, dimension, group);
      if GroupOf(dimension, last) == Some(group) {
        AbsorbIsMerge(Tally(left + front, dimension, group), last);
        AbsorbIsMerge(Tally(front, dimension, group), last);
        MergeAssociative(Tally(left, dimension, group), Tally(front, dimension, group), One(last));
      }
    }
  }

  lemma {:induction false} TallyElsewhere(spans: seq<Span>, dimension: Dimension, group: Group)
    requires group !in GroupsOf(spans, dimension)
    ensures Tally(spans, dimension, group) == ZERO
  {
    hide GroupOf;
    if spans != [] {
      var front := spans[..|spans| - 1];
      assert forall i :: 0 <= i < |front| ==> front[i] == spans[i];
      TallyElsewhere(front, dimension, group);
    }
  }

  /** Rows of a concatenation are merged row by row, the way `llm_aggregate_in` merges a rollup in. */
  ghost function MergedRows(left: map<Group, Counters>, right: map<Group, Counters>): map<Group, Counters> {
    map group | group in left.Keys + right.Keys ::
      (if group in left then left[group] else ZERO).Merge(if group in right then right[group] else ZERO)
  }

  lemma RowsAppend(left: seq<Span>, right: seq<Span>, dimension: Dimension)
    ensures Rows(left + right, dimension) == MergedRows(Rows(left, dimension), Rows(right, dimension))
  {
    hide GroupOf, Tally;
    var spans := left + right;
    assert GroupsOf(spans, dimension) == GroupsOf(left, dimension) + GroupsOf(right, dimension) by {
      GroupsAppend(left, right, dimension);
    }
    forall group | group in GroupsOf(spans, dimension)
      ensures Rows(spans, dimension)[group] == MergedRows(Rows(left, dimension), Rows(right, dimension))[group]
    {
      TallyAppend(left, right, dimension, group);
      if group !in GroupsOf(left, dimension) {
        TallyElsewhere(left, dimension, group);
      }
      if group !in GroupsOf(right, dimension) {
        TallyElsewhere(right, dimension, group);
      }
    }
  }

  lemma GroupsAppend(left: seq<Span>, right: seq<Span>, dimension: Dimension)
    ensures GroupsOf(left + right, dimension) == GroupsOf(left, dimension) + GroupsOf(right, dimension)
  {
    hide GroupOf;
    var spans := left + right;
    forall group | group in GroupsOf(left, dimension) + GroupsOf(right, dimension)
      ensures group in GroupsOf(spans, dimension)
    {
      if group in GroupsOf(left, dimension) {
        var i :| 0 <= i < |left| && GroupOf(dimension, left[i]) == Some(group);
        assert GroupOf(dimension, spans[i]) == Some(group);
      } else {
        var i :| 0 <= i < |right| && GroupOf(dimension, right[i]) == Some(group);
        assert GroupOf(dimension, spans[|left| + i]) == Some(group);
      }
    }
  }

  // ---------------------------------------------------------------- order does not matter

  /** Each span of `expected`, once. */
  ghost predicate Enumerates(spans: seq<Span>, expected: iset<Span>) {
    && (forall i, j :: 0 <= i < j < |spans| ==> spans[i] != spans[j])
    && (forall i :: 0 <= i < |spans| ==> spans[i] in expected)
    && (forall span :: span in expected ==> span in spans)
  }

  lemma {:induction false} EnumerationsPermute(left: seq<Span>, right: seq<Span>, expected: iset<Span>)
    requires Enumerates(left, expected) && Enumerates(right, expected)
    ensures multiset(left) == multiset(right)
  {
    forall span
      ensures multiset(left)[span] == multiset(right)[span]
    {
      OccursOnce(left, span);
      OccursOnce(right, span);
      assert span in left ==> span in expected;
      assert span in right ==> span in expected;
    }
  }

  lemma {:induction false} OccursOnce(spans: seq<Span>, span: Span)
    requires forall i, j :: 0 <= i < j < |spans| ==> spans[i] != spans[j]
    ensures multiset(spans)[span] == if span in spans then 1 else 0
  {
    if spans != [] {
      var front := spans[..|spans| - 1];
      OccursOnce(front, span);
      assert spans == front + [spans[|spans| - 1]];
      assert span in spans <==> span in front || span == spans[|spans| - 1];
    }
  }

  lemma TallyTakesOut(head: seq<Span>, span: Span, tail: seq<Span>, dimension: Dimension, group: Group)
    ensures Tally(head + [span] + tail, dimension, group) ==
            Tally(head + tail, dimension, group).Merge(Tally([span], dimension, group))
  {
    hide GroupOf, Tally;
    TallyAppend(head, tail, dimension, group);
    TallyAppend(head + [span], tail, dimension, group);
    TallyAppend(head, [span], dimension, group);
    var h, t, one := Tally(head, dimension, group), Tally(tail, dimension, group), Tally([span], dimension, group);
    MergeAssociative(h, one, t);
    MergeCommutative(one, t);
    MergeAssociative(h, t, one);
  }

  lemma {:induction false} TallyPermutes(left: seq<Span>, right: seq<Span>, dimension: Dimension, group: Group)
    requires multiset(left) == multiset(right)
    ensures Tally(left, dimension, group) == Tally(right, dimension, group)
    decreases |left|
  {
    hide GroupOf, Tally;
    if left == [] {
      NothingElse(right);
    } else {
      var front, last := left[..|left| - 1], left[|left| - 1];
      assert left == front + [last];
      var head, tail := TakeOut(front, last, right);
      TallyPermutes(front, head + tail, dimension, group);
      TallyTakesOut(head, last, tail, dimension, group);
      TallyAppend(front, [last], dimension, group);
    }
  }

  lemma NothingElse(spans: seq<Span>)
    requires multiset(spans) == multiset{}
    ensures spans == []
  {
    assert |multiset(spans)| == |spans|;
  }

  lemma TakeOut(front: seq<Span>, last: Span, right: seq<Span>) returns (head: seq<Span>, tail: seq<Span>)
    requires multiset(front + [last]) == multiset(right)
    ensures right == head + [last] + tail && multiset(front) == multiset(head + tail)
  {
    assert last in front + [last];
    assert last in multiset(right);
    var i :| 0 <= i < |right| && right[i] == last;
    head, tail := right[..i], right[i + 1..];
    assert right == head + [last] + tail;
    OneLess(front, last, []);
    OneLess(head, last, tail);
    assert front + [] == front && front + [last] + [] == front + [last];
  }

  lemma OneLess<T>(head: seq<T>, element: T, tail: seq<T>)
    ensures multiset(head + tail) == multiset(head + [element] + tail) - multiset{element}
  {
    assert multiset(head + [element] + tail) == multiset(head) + multiset{element} + multiset(tail);
  }

  lemma RowsPermute(left: seq<Span>, right: seq<Span>, dimension: Dimension)
    requires multiset(left) == multiset(right)
    ensures Rows(left, dimension) == Rows(right, dimension)
  {
    hide GroupOf, Tally;
    GroupsPermute(left, right, dimension);
    GroupsPermute(right, left, dimension);
    forall group
      ensures Tally(left, dimension, group) == Tally(right, dimension, group)
    {
      TallyPermutes(left, right, dimension, group);
    }
  }

  lemma GroupsPermute(left: seq<Span>, right: seq<Span>, dimension: Dimension)
    requires multiset(left) == multiset(right)
    ensures GroupsOf(left, dimension) <= GroupsOf(right, dimension)
  {
    hide GroupOf;
    forall i | 0 <= i < |left| && GroupOf(dimension, left[i]).Some?
      ensures GroupOf(dimension, left[i]).value in GroupsOf(right, dimension)
    {
      assert left[i] in multiset(left);
      assert left[i] in multiset(right);
    }
  }
}

/** The annotation log of `src/annotations.rs`: entries in log order, the position indexes over them, the searches that
    go through an index, and the rewrites that drop entries. Healing at open is that of module LineLog. */
module Annotations {
  import opened Common
  import opened CanonicalJson

  datatype Annotation = Annotation(tenant: string, traceId: string, spanId: string, sessionId: string,
                                   experimentId: Option<U64>, exampleId: string, name: string, value: string,
                                   source: string, comment: string, timestampNs: U64)

  // ---------------------------------------------------------------- subjects

  datatype Defect = NoName | BadTenant | SpanWithoutTrace | HalfAScore | SessionNotAlone | NoSubject

  /** The first thing wrong with an annotation's subject; what a tenant may look like is the caller's to say. */
  function DefectOf(validTenant: string -> bool, a: Annotation): Option<Defect> {
    if a.name == "" then Some(NoName)
    else if a.tenant != "" && !validTenant(a.tenant) then Some(BadTenant)
    else if a.spanId != "" && a.traceId == "" then Some(SpanWithoutTrace)
    else if a.experimentId.Some? != (a.exampleId != "") then Some(HalfAScore)
    else if a.sessionId != "" && (a.traceId != "" || a.experimentId.Some?) then Some(SessionNotAlone)
    else if a.traceId == "" && a.sessionId == "" && a.experimentId.None? then Some(NoSubject)
    else None
  }

  /** An annotation that can be kept has a name, a usable tenant and one subject: a score of an example, which may be on
      a trace, or a whole session and nothing else, or a trace or a span of one. */
  predicate AboutOneThing(validTenant: string -> bool, a: Annotation) {
    && a.name != "" && (a.tenant == "" || validTenant(a.tenant))
    && match a.experimentId
       case Some(_) => a.exampleId != "" && a.sessionId == "" && (a.traceId != "" || a.spanId == "")
       case None =>
         && a.exampleId == ""
         && if a.sessionId != "" then a.traceId == "" && a.spanId == "" else a.traceId != ""
  }

  lemma SoundIsAboutOneThing(validTenant: string -> bool, a: Annotation)
    ensures DefectOf(validTenant, a) == None <==> AboutOneThing(validTenant, a)
  {
  }

  // ---------------------------------------------------------------- filters

  function Kept(entries: seq<Annotation>, keep: Annotation -> bool): (r: seq<Annotation>)
    ensures forall a :: a in r <==> a in entries && keep(a)
    ensures |r| <= |entries|
  {
    if entries == [] then []
    else
      var last := entries[|entries| - 1];
      Kept(entries[..|entries| - 1], keep) + if keep(last) then [last] else []
  }

  lemma KeptNext(entries: seq<Annotation>, k: nat, keep: Annotation -> bool)
    requires k < |entries|
    ensures Kept(entries[..k + 1], keep) == Kept(entries[..k], keep) + if keep(entries[k]) then [entries[k]] else []
  {
    assert entries[..k + 1][..k] == entries[..k];
  }

  lemma KeptMore(entries: seq<Annotation>, a: Annotation, keep: Annotation -> bool)
    ensures Kept(entries + [a], keep) == Kept(entries, keep) + if keep(a) then [a] else []
  {
    assert (entries + [a])[..|entries|] == entries;
  }

  lemma {:induction false} KeptSame(entries: seq<Annotation>, one: Annotation -> bool, other: Annotation -> bool)
    requires forall a :: a in entries ==> one(a) == other(a)
    ensures Kept(entries, one) == Kept(entries, other)
  {
    if entries != [] {
      KeptSame(entries[..|entries| - 1], one, other);
    }
  }

  lemma {:induction false} KeptTwice(entries: seq<Annotation>, first: Annotation -> bool, second: Annotation -> bool,
                                     both: Annotation -> bool)
    requires forall a :: both(a) == (first(a) && second(a))
    ensures Kept(Kept(entries, first), second) == Kept(entries, both)
  {
    if entries != [] {
      var k := |entries| - 1;
      var front, last := entries[..k], entries[k];
      KeptTwice(front, first, second, both);
      assert front + [last] == entries;
      KeptMore(front, last, first);
      KeptMore(front, last, both);
      KeptMore(Kept(front, first), last, second);
      hide Kept;
      assert Kept(front, first) + [] == Kept(front, first) && Kept(front, both) + [] == Kept(front, both);
    }
  }

  lemma {:induction false} KeptAll(entries: seq<Annotation>, keep: Annotation -> bool)
    requires |Kept(entries, keep)| == |entries|
    ensures Kept(entries, keep) == entries
  {
    if entries != [] {
      var k := |entries| - 1;
      var front, last := entries[..k], entries[k];
      assert front + [last] == entries;
      KeptMore(front, last, keep);
      hide Kept;
      assert keep(last);
      KeptAll(front, keep);
    }
  }

  // ---------------------------------------------------------------- queries

  datatype Query = Query(traceId: Option<string>, spanId: Option<string>, tenant: Option<string>,
                         sessionId: Option<string>, experimentId: Option<U64>, exampleId: Option<string>,
                         name: Option<string>, sourcePrefix: Option<string>, sinceNs: Option<U64>,
                         untilNs: Option<U64>, limit: Option<nat>)

  /** The test the search applies to a candidate: it leaves the trace to the index. */
  predicate Matches(query: Query, a: Annotation) {
    && (query.spanId.Some? ==> a.spanId == query.spanId.value)
    && (query.tenant.Some? ==> a.tenant == query.tenant.value)
    && (query.sessionId.Some? ==> a.sessionId == query.sessionId.value)
    && (query.experimentId.Some? ==> a.experimentId == query.experimentId)
    && (query.exampleId.Some? ==> a.exampleId == query.exampleId.value)
    && (query.name.Some? ==> a.name == query.name.value)
    && (query.sourcePrefix.Some? ==> query.sourcePrefix.value <= a.source)
    && (query.sinceNs.Some? ==> a.timestampNs >= query.sinceNs.value)
    && (query.untilNs.Some? ==> a.timestampNs <= query.untilNs.value)
  }

  /** Every narrowing the query supplies holds. */
  predicate Fits(query: Query, a: Annotation) {
    Matches(query, a) && (query.traceId.Some? ==> a.traceId == query.traceId.value)
  }

  datatype Index = ByTrace(traceId: string) | ByExperiment(experimentId: U64)

  predicate Under(index: Index, a: Annotation) {
    match index
    case ByTrace(traceId) => a.traceId == traceId
    case ByExperiment(experimentId) => a.experimentId == Some(experimentId)
  }

  /** The most selective index a query can go through. */
  function Chosen(query: Query): Option<Index> {
    if query.experimentId.Some? then Some(ByExperiment(query.experimentId.value))
    else if query.traceId.Some? then Some(ByTrace(query.traceId.value))
    else None
  }

  function Fitting(query: Query): Annotation -> bool { a => Fits(query, a) }

  function Matching(query: Query): Annotation -> bool { a => Matches(query, a) }

  function Among(index: Option<Index>, test: Annotation -> bool): Annotation -> bool {
    a => (index.Some? ==> Under(index.value, a)) && test(a)
  }

  // ---------------------------------------------------------------- newest first

  function Names(a: Annotation): seq<string> { [a.tenant, a.traceId, a.spanId, a.exampleId, a.name] }

  predicate LessAll(a: seq<string>, b: seq<string>) {
    b != [] && (a == [] || Less(a[0], b[0]) || (a[0] == b[0] && LessAll(a[1..], b[1..])))
  }

  lemma {:induction false} LessAllTotal(a: seq<string>, b: seq<string>)
    ensures LessAll(a, b) || LessAll(b, a) || a == b
    ensures !(LessAll(a, b) && LessAll(b, a)) && (a == b ==> !LessAll(a, b))
  {
    if a != [] && b != [] {
      LessTotal(a[0], b[0]);
      LessAllTotal(a[1..], b[1..]);
      assert a == [a[0]] + a[1..] && b == [b[0]] + b[1..];
    }
  }

  lemma {:induction false} LessAllTransitive(a: seq<string>, b: seq<string>, c: seq<string>)
    requires LessAll(a, b) && LessAll(b, c)
    ensures LessAll(a, c)
  {
    if a != [] {
      if Less(a[0], b[0]) && Less(b[0], c[0]) {
        LessTransitive(a[0], b[0], c[0]);
      } else if a[0] == b[0] == c[0] {
        LessAllTransitive(a[1..], b[1..], c[1..]);
      }
    }
  }

  datatype Rank = Rank(timestampNs: U64, names: seq<string>)

  function RankOf(a: Annotation): Rank { Rank(a.timestampNs, Names(a)) }

  predicate Before(a: Rank, b: Rank) {
    a.timestampNs > b.timestampNs || (a.timestampNs == b.timestampNs && LessAll(a.names, b.names))
  }

  lemma BeforeTotal(a: Rank, b: Rank)
    ensures Before(a, b) || Before(b, a) || a == b
    ensures !(Before(a, b) && Before(b, a)) && !Before(a, a)
  {
    LessAllTotal(a.names, b.names);
    LessAllTotal(a.names, a.names);
  }

  lemma NotBeforeTransitive(a: Rank, b: Rank, c: Rank)
    requires !Before(b, a) && !Before(c, b)
    ensures !Before(c, a)
  {
    BeforeTotal(a, b);
    BeforeTotal(b, c);
    BeforeTotal(a, c);
    if a != b && b != c && LessAll(a.names, b.names) && LessAll(b.names, c.names) {
      LessAllTransitive(a.names, b.names, c.names);
    }
  }

  function Placed(a: Annotation, sorted: seq<Annotation>): seq<Annotation> {
    if sorted != [] && Before(RankOf(sorted[0]), RankOf(a)) then [sorted[0]] + Placed(a, sorted[1..]) else [a] + sorted
  }

  /** A stable sort: newest first, then by tenant, trace, span, example and name. */
  function Newest(found: seq<Annotation>): seq<Annotation> {
    if found == [] then [] else Placed(found[0], Newest(found[1..]))
  }

  predicate Ordered(list: seq<Annotation>) {
    forall i, j :: 0 <= i < j < |list| ==> !Before(RankOf(list[j]), RankOf(list[i]))
  }

  /** One comes before another: it is newer, or as new and first by tenant, then trace, span, example and name. */
  predicate ComesFirst(one: Annotation, other: Annotation) {
    if one.timestampNs != other.timestampNs then one.timestampNs > other.timestampNs
    else if one.tenant != other.tenant then Less(one.tenant, other.tenant)
    else if one.traceId != other.traceId then Less(one.traceId, other.traceId)
    else if one.spanId != other.spanId then Less(one.spanId, other.spanId)
    else if one.exampleId != other.exampleId then Less(one.exampleId, other.exampleId)
    else Less(one.name, other.name)
  }

  lemma BeforeIsFirst(one: Annotation, other: Annotation)
    ensures Before(RankOf(one), RankOf(other)) <==> ComesFirst(one, other)
  {
    var a, b := Names(one), Names(other);
    LessTotal(one.tenant, one.tenant);
    LessTotal(one.traceId, one.traceId);
    LessTotal(one.spanId, one.spanId);
    LessTotal(one.exampleId, one.exampleId);
    LessTotal(one.name, one.name);
    hide Less;
    LessAllNext(a, b);
    LessAllNext(a[1..], b[1..]);
    LessAllNext(a[2..], b[2..]);
    LessAllNext(a[3..], b[3..]);
    LessAllNext(a[4..], b[4..]);
    assert a[5..] == [] && b[5..] == [];
    assert LessAll([], []) == false;
    hide LessAll;
    assert a[1..][1..] == a[2..] && a[2..][1..] == a[3..] && a[3..][1..] == a[4..] && a[4..][1..] == a[5..];
    assert b[1..][1..] == b[2..] && b[2..][1..] == b[3..] && b[3..][1..] == b[4..] && b[4..][1..] == b[5..];
  }

  lemma LessAllNext(a: seq<string>, b: seq<string>)
    requires a != [] && b != []
    ensures LessAll(a, b) <==> Less(a[0], b[0]) || (a[0] == b[0] && LessAll(a[1..], b[1..]))
  {
  }

  predicate NewestFirst(list: seq<Annotation>) {
    forall i, j :: 0 <= i < j < |list| ==> !ComesFirst(list[j], list[i])
  }

  lemma OrderedIsNewestFirst(list: seq<Annotation>)
    requires Ordered(list)
    ensures NewestFirst(list)
  {
    hide ComesFirst, Before, RankOf;
    forall i, j | 0 <= i < j < |list|
      ensures !ComesFirst(list[j], list[i])
    {
      BeforeIsFirst(list[j], list[i]);
    }
  }

  function OfRank(list: seq<Annotation>, rank: Rank): seq<Annotation> {
    if list == [] then [] else (if RankOf(list[0]) == rank then [list[0]] else []) + OfRank(list[1..], rank)
  }

  lemma {:induction false} PlacedHolds(a: Annotation, sorted: seq<Annotation>)
    ensures forall b :: b in Placed(a, sorted) <==> b == a || b in sorted
  {
    hide RankOf, Before;
    if sorted != [] && Before(RankOf(sorted[0]), RankOf(a)) {
      PlacedHolds(a, sorted[1..]);
      assert sorted == [sorted[0]] + sorted[1..];
    }
  }

  lemma OfRankNext(a: Annotation, list: seq<Annotation>, rank: Rank)
    ensures OfRank([a] + list, rank) == (if RankOf(a) == rank then [a] else []) + OfRank(list, rank)
  {
    assert ([a] + list)[1..] == list;
  }

  lemma {:induction false} PlacedOfRank(a: Annotation, sorted: seq<Annotation>, rank: Rank)
    ensures OfRank(Placed(a, sorted), rank) == OfRank([a] + sorted, rank)
  {
    hide RankOf, Before, OfRank;
    if sorted != [] && Before(RankOf(sorted[0]), RankOf(a)) {
      var first, later := sorted[0], sorted[1..];
      PlacedOfRank(a, later, rank);
      BeforeTotal(RankOf(first), RankOf(a));
      assert sorted == [first] + later;
      OfRankNext(first, Placed(a, later), rank);
      OfRankNext(a, later, rank);
      OfRankNext(a, sorted, rank);
      OfRankNext(first, later, rank);
    }
  }

  lemma {:induction false} PlacedKeeps(a: Annotation, sorted: seq<Annotation>, rank: Rank)
    requires Ordered(sorted)
    ensures Ordered(Placed(a, sorted)) && OfRank(Placed(a, sorted), rank) == OfRank([a] + sorted, rank)
    ensures forall b :: b in Placed(a, sorted) <==> b == a || b in sorted
  {
    hide RankOf, Before, OfRank;
    PlacedHolds(a, sorted);
    PlacedOfRank(a, sorted, rank);
    if sorted != [] && Before(RankOf(sorted[0]), RankOf(a)) {
      var first, later := sorted[0], sorted[1..];
      PlacedKeeps(a, later, rank);
      BeforeTotal(RankOf(first), RankOf(a));
      var r := Placed(a, later);
      assert sorted == [first] + later;
      forall b | b in r
        ensures !Before(RankOf(b), RankOf(first))
      {
        if b in later {
          var k :| 0 <= k < |later| && later[k] == b;
          assert sorted[k + 1] == b;
        }
      }
    } else {
      forall b | b in sorted
        ensures !Before(RankOf(b), RankOf(a))
      {
        var k :| 0 <= k < |sorted| && sorted[k] == b;
        BeforeTotal(RankOf(sorted[0]), RankOf(sorted[0]));
        NotBeforeTransitive(RankOf(a), RankOf(sorted[0]), RankOf(b));
      }
    }
  }

  /** The sort orders the list and keeps the order of equals, so it only rearranges it. */
  lemma {:induction false} NewestHolds(found: seq<Annotation>, rank: Rank)
    ensures Ordered(Newest(found)) && OfRank(Newest(found), rank) == OfRank(found, rank)
    ensures NewestFirst(Newest(found)) && forall a :: a in Newest(found) <==> a in found
  {
    hide ComesFirst, RankOf, Before, OfRank, NewestFirst;
    NoneOfRank(rank);
    if found == [] {
      OrderedIsNewestFirst([]);
    } else {
      OfRankNext(found[0], Newest(found[1..]), rank);
      OfRankNext(found[0], found[1..], rank);
    }
    if found != [] {
      NewestHolds(found[1..], rank);
      PlacedKeeps(found[0], Newest(found[1..]), rank);
      assert found == [found[0]] + found[1..];
      OrderedIsNewestFirst(Newest(found));
    }
  }

  lemma NoneOfRank(rank: Rank)
    ensures OfRank([], rank) == []
  {
  }

  /** A list that is ordered and keeps the order of equals is the only one: the sort is what any stable sort gives. */
  lemma {:induction false} OneStableOrder(one: seq<Annotation>, other: seq<Annotation>)
    requires Ordered(one) && Ordered(other) && forall rank :: OfRank(one, rank) == OfRank(other, rank)
    ensures one == other
  {
    hide RankOf, Before;
    if one == [] {
      FirstOfRank(other);
    } else {
      InOfRank(one, other, one[0]);
      InOfRank(other, one, other[0]);
      var k :| 0 <= k < |other| && RankOf(other[k]) == RankOf(one[0]);
      var m :| 0 <= m < |one| && RankOf(one[m]) == RankOf(other[0]);
      BeforeTotal(RankOf(one[0]), RankOf(other[0]));
      assert RankOf(one[0]) == RankOf(other[0]);
      assert OfRank(one, RankOf(one[0]))[0] == one[0] && OfRank(other, RankOf(other[0]))[0] == other[0];
      forall rank
        ensures OfRank(one[1..], rank) == OfRank(other[1..], rank)
      {
        RestOfRank(one, rank);
        RestOfRank(other, rank);
      }
      OneStableOrder(one[1..], other[1..]);
      assert one == [one[0]] + one[1..] && other == [other[0]] + other[1..];
    }
  }

  lemma FirstOfRank(list: seq<Annotation>)
    ensures list != [] ==> OfRank(list, RankOf(list[0])) != []
  {
  }

  lemma RestOfRank(list: seq<Annotation>, rank: Rank)
    requires list != []
    ensures OfRank(list[1..], rank) == if RankOf(list[0]) == rank then OfRank(list, rank)[1..] else OfRank(list, rank)
  {
  }

  lemma InOfRank(one: seq<Annotation>, other: seq<Annotation>, a: Annotation)
    requires one != [] && a == one[0] && OfRank(one, RankOf(a)) == OfRank(other, RankOf(a))
    ensures exists k :: 0 <= k < |other| && RankOf(other[k]) == RankOf(a)
  {
    assert OfRank(one, RankOf(a)) != [];
    SomeOfRank(other, RankOf(a));
  }

  lemma {:induction false} SomeOfRank(list: seq<Annotation>, rank: Rank)
    requires OfRank(list, rank) != []
    ensures exists k :: 0 <= k < |list| && RankOf(list[k]) == rank
  {
    if RankOf(list[0]) != rank {
      SomeOfRank(list[1..], rank);
      var k :| 0 <= k < |list[1..]| && RankOf(list[1..][k]) == rank;
      assert list[k + 1] == list[1..][k];
    }
  }

  // ---------------------------------------------------------------- what a search answers

  function Limited(list: seq<Annotation>, limit: Option<nat>): seq<Annotation> {
    if limit.Some? && limit.value < |list| then list[..limit.value] else list
  }

  lemma CutIsNewestFirst(list: seq<Annotation>, limit: Option<nat>)
    requires NewestFirst(list)
    ensures NewestFirst(Limited(list, limit))
  {
    hide ComesFirst;
  }

  /** The answer the query describes: every annotation that fits, newest first, the first so many. */
  function Asked(entries: seq<Annotation>, query: Query): seq<Annotation> {
    Limited(Newest(Kept(entries, Fitting(query))), query.limit)
  }

  /** What going through the chosen index finds. */
  function Found(entries: seq<Annotation>, query: Query): seq<Annotation> {
    Kept(entries, Among(Chosen(query), Matching(query)))
  }

  function Searched(entries: seq<Annotation>, query: Query): seq<Annotation> {
    Limited(Newest(Found(entries, query)), query.limit)
  }

  /** A query with both an experiment and a trace that some annotation could match. */
  predicate LosesTheTrace(query: Query, validTenant: string -> bool) {
    && query.experimentId.Some? && query.traceId.Some? && query.limit != Some(0)
    && (query.sessionId.Some? ==> query.sessionId.value == "") && query.exampleId != Some("") && query.name != Some("")
    && (query.tenant.Some? && query.tenant.value != "" ==> validTenant(query.tenant.value))
    && (query.sinceNs.Some? && query.untilNs.Some? ==> query.sinceNs.value <= query.untilNs.value)
  }

  /** The logs that appends build. */
  predicate AllSound(entries: seq<Annotation>, validTenant: string -> bool) {
    forall a :: a in entries ==> DefectOf(validTenant, a) == None
  }

  lemma SearchAgrees(entries: seq<Annotation>, query: Query, validTenant: string -> bool)
    requires AllSound(entries, validTenant) && !LosesTheTrace(query, validTenant)
    ensures Searched(entries, query) == Asked(entries, query)
  {
    if query.experimentId.Some? && query.traceId.Some? && query.limit != Some(0) {
      hide Newest;
      forall a | a in entries
        ensures !Matches(query, a)
      {
        assert DefectOf(validTenant, a) == None;
      }
      assert Kept(entries, Fitting(query)) == [] == Found(entries, query) by {
        NoneKept(entries, Fitting(query));
        NoneKept(entries, Among(Chosen(query), Matching(query)));
      }
    } else if query.limit != Some(0) {
      KeptSame(entries, Among(Chosen(query), Matching(query)), Fitting(query));
    }
  }

  lemma NoneKept(entries: seq<Annotation>, keep: Annotation -> bool)
    requires forall a :: a in entries ==> !keep(a)
    ensures Kept(entries, keep) == []
  {
    if Kept(entries, keep) != [] {
      assert Kept(entries, keep)[0] in Kept(entries, keep);
    }
  }

  /** A score that matches the query on another trace. */
  function Elsewhere(query: Query): Annotation
    requires query.experimentId.Some? && query.traceId.Some?
  {
    Annotation(query.tenant.GetOr(""), if query.traceId.value == "t" then "u" else "t", query.spanId.GetOr(""), "",
               query.experimentId, query.exampleId.GetOr("e"), query.name.GetOr("n"), "", query.sourcePrefix.GetOr(""),
                 "",
               query.sinceNs.GetOr(query.untilNs.GetOr(0)))
  }

  lemma SearchLosesTheTrace(query: Query, validTenant: string -> bool)
    requires LosesTheTrace(query, validTenant)
    ensures var entries := [Elsewhere(query)];
            AllSound(entries, validTenant) && Searched(entries, query) != Asked(entries, query)
  {
    var a := Elsewhere(query);
    ElsewhereMatches(query, validTenant);
    hide DefectOf, Elsewhere, LosesTheTrace, Matches;
    OneKept(a, Among(Chosen(query), Matching(query)));
    OneKept(a, Fitting(query));
    assert Newest([a]) == [a] by { assert [a][1..] == []; }
  }

  lemma ElsewhereMatches(query: Query, validTenant: string -> bool)
    requires LosesTheTrace(query, validTenant)
    ensures var a := Elsewhere(query); Matches(query, a) && !Fits(query, a) && DefectOf(validTenant, a) == None
    ensures Elsewhere(query).experimentId == query.experimentId
  {
  }

  lemma OneKept(a: Annotation, keep: Annotation -> bool)
    ensures Kept([a], keep) == if keep(a) then [a] else []
  {
    KeptMore([], a, keep);
    assert [] + [a] == [a] && Kept([], keep) == [];
  }

  /** The search answers the query on every log exactly when the query does not name both an experiment and a trace, or
      names them in vain: with both the experiment's index is used and the trace is not looked at. */
  lemma SearchIsExact(query: Query, validTenant: string -> bool)
    ensures (forall entries :: AllSound(entries, validTenant) ==> Searched(entries, query) == Asked(entries, query))
            <==> !LosesTheTrace(query, validTenant)
  {
    hide LosesTheTrace, Searched, Asked, AllSound;
    if LosesTheTrace(query, validTenant) {
      SearchLosesTheTrace(query, validTenant);
    } else {
      forall entries | AllSound(entries, validTenant)
        ensures Searched(entries, query) == Asked(entries, query)
      {
        SearchAgrees(entries, query, validTenant);
      }
    }
  }

  // ---------------------------------------------------------------- the indexes

  /** The positions an index holds for its key, in log order. */
  function Positions(entries: seq<Annotation>, index: Index): (r: seq<nat>)
    ensures forall k :: 0 <= k < |r| ==> r[k] < |entries|
  {
    if entries == [] then []
    else
      var k := |entries| - 1;
      Positions(entries[..k], index) + if Under(index, entries[k]) then [k] else []
  }

  function At(entries: seq<Annotation>, positions: seq<nat>): seq<Annotation>
    requires forall k :: 0 <= k < |positions| ==> positions[k] < |entries|
  {
    seq(|positions|, k requires 0 <= k < |positions| => entries[positions[k]])
  }

  function Holding(index: Index): Annotation -> bool { a => Under(index, a) }

  /** Reading through an index reads the entries under its key, in log order. */
  lemma {:induction false} IndexReads(entries: seq<Annotation>, index: Index)
    ensures At(entries, Positions(entries, index)) == Kept(entries, Holding(index))
  {
    if entries != [] {
      var k := |entries| - 1;
      var front, last := entries[..k], entries[k];
      IndexReads(front, index);
      assert front + [last] == entries;
      KeptMore(front, last, Holding(index));
      hide Kept;
      assert At(front, Positions(front, index)) == At(entries, Positions(front, index));
      assert At(entries, Positions(entries, index))
             == At(entries, Positions(front, index)) + if Under(index, last) then [last] else [];
    }
  }

  /** The two keys an annotation is under. */
  predicate UnderHere(index: Index, a: Annotation)
    ensures UnderHere(index, a) <==> Under(index, a)
  {
    index == ByTrace(a.traceId) || (a.experimentId.Some? && index == ByExperiment(a.experimentId.value))
  }

  lemma PositionsNext(entries: seq<Annotation>, k: nat, index: Index)
    requires k < |entries|
    ensures Positions(entries[..k + 1], index) == Positions(entries[..k], index) 
            + if Under(index, entries[k]) then [k] else []
  {
    assert entries[..k + 1][..k] == entries[..k];
  }

  // ---------------------------------------------------------------- the log

  datatype ErasedSubject = ErasedSubject(keys: set<SpanKey>, wholeTrace: Option<TraceKey>,
                                         wholeSession: Option<SessionKey>, wholeTenant: Option<string>)

  datatype SpanKey = SpanKey(tenant: string, traceId: string, spanId: string)

  datatype TraceKey = TraceKey(tenant: string, traceId: string)

  datatype SessionKey = SessionKey(tenant: string, sessionId: string)

  predicate Doomed(subject: ErasedSubject, a: Annotation) {
    || (subject.wholeTenant.Some? && a.tenant == subject.wholeTenant.value)
    || (subject.wholeTrace.Some? && TraceKey(a.tenant, a.traceId) == subject.wholeTrace.value)
    || (subject.wholeSession.Some? && SessionKey(a.tenant, a.sessionId) == subject.wholeSession.value)
    || (a.traceId != "" && SpanKey(a.tenant, a.traceId, a.spanId) in subject.keys)
  }

  predicate Narrowed(tenant: Option<string>, spanId: Option<string>, name: Option<string>, a: Annotation) {
    && (tenant.None? || tenant.value == a.tenant) && (spanId.None? || spanId.value == a.spanId)
    && (name.None? || name.value == a.name)
  }

  /** Scores live on evaluation retention: no cutoff reaches them. */
  predicate Retained(cutoffFor: string -> Option<U64>, a: Annotation) {
    a.experimentId.Some? || cutoffFor(a.tenant).None? || a.timestampNs >= cutoffFor(a.tenant).value
  }

  function Retaining(cutoffFor: string -> Option<U64>): Annotation -> bool { a => Retained(cutoffFor, a) }

  function Sparing(subject: ErasedSubject): Annotation -> bool { a => !Doomed(subject, a) }

  function NarrowedTo(tenant: Option<string>, spanId: Option<string>, name: Option<string>): Annotation -> bool {
    a => Narrowed(tenant, spanId, name, a)
  }

  method ReadAll(entries: seq<Annotation>, test: Annotation -> bool) returns (found: seq<Annotation>)
    ensures found == Kept(entries, test)
  {
    found := [];
    for i := 0 to |entries|
      invariant found == Kept(entries[..i], test)
    {
      KeptNext(entries, i, test);
      if test(entries[i]) {
        found := found + [entries[i]];
      }
    }
    assert entries[..|entries|] == entries;
  }

  method ReadThrough(entries: seq<Annotation>, positions: seq<nat>, test: Annotation -> bool)
    returns (found: seq<Annotation>)
    requires forall k :: 0 <= k < |positions| ==> positions[k] < |entries|
    ensures found == Kept(At(entries, positions), test)
  {
    ghost var listed := At(entries, positions);
    found := [];
    assert Kept(listed[..0], test) == [];
    assert |listed| == |positions| && forall k :: 0 <= k < |listed| ==> listed[k] == entries[positions[k]];
    hide At, Kept;
    for i := 0 to |positions|
      invariant found == Kept(listed[..i], test)
    {
      KeptNext(listed, i, test);
      if test(entries[positions[i]]) {
        found := found + [entries[positions[i]]];
      }
    }
    assert listed[..|positions|] == listed;
  }

  class AnnotationLog {
    var lines: seq<Annotation>
    var entries: seq<Annotation>
    var byTrace: map<string, seq<nat>>
    var byExperiment: map<U64, seq<nat>>

    /** What the index holds for its key. */
    function Lookup(index: Index): seq<nat>
      reads this
    {
      match index
      case ByTrace(traceId) => if traceId in byTrace then byTrace[traceId] else []
      case ByExperiment(experimentId) => if experimentId in byExperiment then byExperiment[experimentId] else []
    }

    ghost predicate Indexed(upTo: nat)
      requires upTo <= |entries|
      reads this
    {
      forall index :: Lookup(index) == Positions(entries[..upTo], index)
    }

    /** Memory is the log, and the indexes are over all of it. */
    ghost predicate Valid()
      reads this
    {
      entries == lines && Indexed(|entries|)
    }

    method IndexPosition(position: nat)
      requires position < |entries| && Indexed(position)
      modifies this`byTrace, this`byExperiment
      ensures Indexed(position + 1)
    {
      var a := entries[position];
      byTrace := byTrace[a.traceId := (if a.traceId in byTrace then byTrace[a.traceId] else []) + [position]];
      if a.experimentId.Some? {
        var experiment := a.experimentId.value;
        byExperiment := byExperiment[experiment := (if experiment in byExperiment then byExperiment[experiment] else [])
                                                   + [position]];
      }
      hide Positions;
      forall index
        ensures Lookup(index) == Positions(entries[..position + 1], index)
      {
        assert old(Lookup(index)) == Positions(entries[..position], index);
        PositionsNext(entries, position, index);
        hide Under;
        assert Lookup(index) == old(Lookup(index)) + if UnderHere(index, a) then [position] else [];
      }
    }

    method Adopt(list: seq<Annotation>)
      modifies this`entries, this`byTrace, this`byExperiment
      ensures entries == list && Indexed(|list|)
    {
      entries := list;
      byTrace := map[];
      byExperiment := map[];
      assert entries[..0] == [];
      for position := 0 to |entries|
        invariant entries == list && Indexed(position)
      {
        IndexPosition(position);
      }
    }

    /** Opens a log whose file held these lines. */
    constructor (contents: seq<Annotation>)
      ensures Valid() && lines == contents
    {
      lines := contents;
      entries := [];
      byTrace := map[];
      byExperiment := map[];
      new;
      for i := 0 to |contents|
        invariant lines == contents && entries == contents[..i] && Indexed(i)
      {
        Push(contents[i]);
      }
      assert contents[..|contents|] == contents;
    }

    method Push(a: Annotation)
      requires Indexed(|entries|)
      modifies this`entries, this`byTrace, this`byExperiment
      ensures entries == old(entries) + [a] && Indexed(|entries|)
    {
      ghost var was := entries;
      entries := entries + [a];
      assert entries[..|was|] == was[..|was|];
      assert Indexed(|was|) by {
        forall index
          ensures Lookup(index) == Positions(entries[..|was|], index)
        {
          assert Lookup(index) == old(Lookup(index));
        }
      }
      IndexPosition(|entries| - 1);
    }

    method Append(validTenant: string -> bool, a: Annotation) returns (r: Result<(), Defect>)
      requires Valid()
      modifies this
      ensures Valid()
      ensures r.Ok? <==> AboutOneThing(validTenant, a)
      ensures r.Err? ==> DefectOf(validTenant, a) == Some(r.error)
      ensures lines == if r.Ok? then old(lines) + [a] else old(lines)
      ensures old(AllSound(lines, validTenant)) ==> AllSound(lines, validTenant)
    {
      SoundIsAboutOneThing(validTenant, a);
      hide Positions;
      var defect := DefectOf(validTenant, a);
      if defect.Some? {
        return Err(defect.value);
      }
      lines := lines + [a];
      Push(a);
      r := Ok(());
    }

    /** A trace's annotations, narrowed to a tenant, a span or a name, in log order. */
    method OfTrace(tenant: Option<string>, traceId: string, spanId: Option<string>, name: Option<string>)
      returns (found: seq<Annotation>)
      requires Valid()
      ensures found == Kept(entries, Among(Some(ByTrace(traceId)), NarrowedTo(tenant, spanId, name)))
      ensures forall a :: a in found <==>
                && a in entries && a.traceId == traceId && (tenant.Some? ==> a.tenant == tenant.value)
                && (spanId.Some? ==> a.spanId == spanId.value) && (name.Some? ==> a.name == name.value)
    {
      found := Considered(ByTrace(traceId), NarrowedTo(tenant, spanId, name));
    }

    /** The entries under an index's key that pass a test. */
    method Considered(index: Index, test: Annotation -> bool) returns (found: seq<Annotation>)
      requires Valid()
      ensures found == Kept(entries, Among(Some(index), test))
    {
      var positions := Lookup(index);
      assert entries[..|entries|] == entries;
      IndexReads(entries, index);
      found := ReadThrough(entries, positions, test);
      KeptTwice(entries, Holding(index), test, Among(Some(index), test));
    }

    /** Annotations matching the narrowings, newest first. */
    method Search(query: Query) returns (found: seq<Annotation>)
      requires Valid()
      ensures found == Searched(entries, query) && NewestFirst(found)
    {
      hide Positions, Matches, Newest, Kept, Lookup;
      var test := Matching(query);
      if query.experimentId.Some? {
        found := Considered(ByExperiment(query.experimentId.value), test);
      } else if query.traceId.Some? {
        found := Considered(ByTrace(query.traceId.value), test);
      } else {
        found := ReadAll(entries, test);
        KeptSame(entries, test, Among(None, test));
      }
      NewestHolds(found, Rank(0, []));
      CutIsNewestFirst(Newest(found), query.limit);
      found := Limited(Newest(found), query.limit);
    }

    /** Rewrites the log to what `keep` admits; a rewrite that drops nothing leaves the file alone. */
    method RewriteKeeping(keep: Annotation -> bool) returns (removed: nat)
      requires Valid()
      modifies this
      ensures Valid() && lines == Kept(old(lines), keep) && removed == |old(lines)| - |lines|
    {
      hide Positions;
      var kept: seq<Annotation> := [];
      removed := 0;
      for i := 0 to |entries|
        invariant entries == old(entries) && kept == Kept(entries[..i], keep) && removed == i - |kept|
        invariant unchanged(this)
      {
        KeptNext(entries, i, keep);
        if keep(entries[i]) {
          kept := kept + [entries[i]];
        } else {
          removed := removed + 1;
        }
      }
      assert entries[..|entries|] == entries;
      if removed == 0 {
        KeptAll(entries, keep);
        return;
      }
      lines := kept;
      Adopt(kept);
    }

    /** Drops what addresses an erased subject, and nothing else. */
    method DropForSubject(subject: ErasedSubject) returns (removed: nat)
      requires Valid()
      modifies this
      ensures Valid() && lines == Kept(old(lines), Sparing(subject)) && removed == |old(lines)| - |lines|
      ensures forall a :: a in lines <==>
                && a in old(lines) && (subject.wholeTenant.Some? ==> a.tenant != subject.wholeTenant.value)
                && (forall t :: subject.wholeTrace == Some(t) ==> a.tenant != t.tenant || a.traceId != t.traceId)
                && (forall s :: subject.wholeSession == Some(s) ==> a.tenant != s.tenant || a.sessionId != s.sessionId)
                && (a.traceId == "" || SpanKey(a.tenant, a.traceId, a.spanId) !in subject.keys)
    {
      removed := RewriteKeeping(Sparing(subject));
    }

    /** Drops what is older than its tenant's cutoff; scores and tenants without one are kept. */
    method DropOlderThan(cutoffFor: string -> Option<U64>) returns (removed: nat)
      requires Valid()
      modifies this
      ensures Valid() && lines == Kept(old(lines), Retaining(cutoffFor)) && removed == |old(lines)| - |lines|
      ensures forall a :: a in lines <==>
                && a in old(lines)
                && forall at :: a.experimentId.None? && cutoffFor(a.tenant) == Some(at) ==> at <= a.timestampNs
    {
      removed := RewriteKeeping(Retaining(cutoffFor));
    }
  }

  /** The subject names one tenant only. */
  predicate Concerns(subject: ErasedSubject, tenant: string) {
    && (forall key :: key in subject.keys ==> key.tenant == tenant)
    && (subject.wholeTrace.Some? ==> subject.wholeTrace.value.tenant == tenant)
    && (subject.wholeSession.Some? ==> subject.wholeSession.value.tenant == tenant)
    && (subject.wholeTenant.Some? ==> subject.wholeTenant.value == tenant)
  }

  /** Dropping for one tenant's subject changes no answer to another tenant. */
  lemma OtherTenantsSearchTheSame(entries: seq<Annotation>, subject: ErasedSubject, tenant: string, query: Query)
    requires Concerns(subject, tenant) && query.tenant.Some? && query.tenant.value != tenant
    ensures Searched(Kept(entries, Sparing(subject)), query) == Searched(entries, query)
  {
    var test := Among(Chosen(query), Matching(query));
    var both := (a: Annotation) => !Doomed(subject, a) && test(a);
    KeptTwice(entries, Sparing(subject), test, both);
    KeptSame(entries, both, test);
  }
}

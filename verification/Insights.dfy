/** The folds of `src/insights.rs`: time buckets, failure groups under a bound, and the slowest spans kept by bounded
    insertion. The latency histogram itself is in module Histogram. */
module Insights {
  import opened Common

  datatype Span = Span(service: string, name: string, status: string, traceId: string, spanId: string, start: U64,
                       end: U64)

  function Duration(span: Span): nat { SaturatingSub(span.end, span.start) }

  // ---------------------------------------------------------------- the slowest spans

  const SLOWEST_LIMIT: nat := 1000

  predicate Descending(list: seq<Span>) {
    forall i, j :: 0 <= i < j < |list| ==> Duration(list[i]) >= Duration(list[j])
  }

  /** The `k` slowest of a stream, slowest first. */
  ghost predicate Slowest(worst: seq<Span>, stream: seq<Span>, k: nat) {
    |worst| == Min(k, |stream|) && Descending(worst) && multiset(worst) <= multiset(stream)
    && NoneSlowerLeft(worst, stream)
  }

  /** Nothing left out is slower than anything kept. */
  ghost predicate NoneSlowerLeft(worst: seq<Span>, stream: seq<Span>) {
    forall left, kept :: left in multiset(stream) - multiset(worst) && kept in worst ==>
      Duration(left) <= Duration(kept)
  }

  /** Where a duration goes in a descending list: some position of an equal one, or between the slower and
      the faster. */
  method BinarySearch(list: seq<Span>, duration: nat) returns (at: nat)
    requires Descending(list)
    ensures at <= |list|
    ensures forall i :: 0 <= i < at ==> Duration(list[i]) >= duration
    ensures forall i :: at <= i < |list| ==> Duration(list[i]) <= duration
  {
    var low, high := 0, |list|;
    while low < high
      invariant 0 <= low <= high <= |list|
      invariant forall i :: 0 <= i < low ==> Duration(list[i]) > duration
      invariant forall i :: high <= i < |list| ==> Duration(list[i]) < duration
    {
      var mid := (low + high) / 2;
      if Duration(list[mid]) == duration {
        return mid;
      } else if Duration(list[mid]) > duration {
        low := mid + 1;
      } else {
        high := mid;
      }
    }
    at := low;
  }

  /** Inserted at a position and cut to the limit. */
  function Inserted(worst: seq<Span>, span: Span, at: nat, limit: nat): seq<Span>
    requires at <= |worst|
  {
    var more := worst[..at] + [span] + worst[at..];
    if |more| > limit then more[..limit] else more
  }

  lemma NoneSlowest(limit: nat)
    ensures Slowest([], [], limit)
  {
  }

  method SlowestSpans(stream: seq<Span>, asked: nat) returns (worst: seq<Span>)
    ensures Slowest(worst, stream, Min(asked, 1000))
    ensures forall i, j :: 0 <= i < j < |worst| ==>
              Max(worst[i].end - worst[i].start, 0) >= Max(worst[j].end - worst[j].start, 0)
  {
    var limit := Min(asked, SLOWEST_LIMIT);
    worst := [];
    NoneSlowest(limit);
    hide *;
    assert stream[..0] == [];
    for n := 0 to |stream|
      invariant Slowest(worst, stream[..n], limit)
    {
      ghost var before := stream[..n];
      assert stream[..n + 1] == before + [stream[n]];
      worst := Considered(worst, before, stream[n], limit);
    }
    assert stream[..|stream|] == stream;
  }

  /** One span more. */
  method Considered(worst: seq<Span>, ghost stream: seq<Span>, span: Span, limit: nat) returns (r: seq<Span>)
    requires Slowest(worst, stream, limit)
    ensures Slowest(r, stream + [span], limit)
  {
    if limit == 0 {
      return worst;
    }
    if |worst| == limit && Duration(span) <= Duration(worst[|worst| - 1]) {
      Passed(worst, stream, span, limit);
      return worst;
    }
    var at := BinarySearch(worst, Duration(span));
    InsertedKeeps(worst, stream, span, limit, at);
    r := Inserted(worst, span, at, limit);
  }

  lemma Passed(worst: seq<Span>, stream: seq<Span>, span: Span, limit: nat)
    requires Slowest(worst, stream, limit) && 0 < limit == |worst| && Duration(span) <= Duration(worst[|worst| - 1])
    ensures Slowest(worst, stream + [span], limit)
  {
    forall left, kept | left in multiset(stream + [span]) - multiset(worst) && kept in worst
      ensures Duration(left) <= Duration(kept)
    {
      var k :| 0 <= k < |worst| && worst[k] == kept;
      assert Duration(worst[k]) >= Duration(worst[|worst| - 1]);
      if left != span {
        assert left in multiset(stream) - multiset(worst);
      }
    }
  }

  /** The span has a place in the list, and there is room for it or it is slower than the last. */
  predicate Fits(worst: seq<Span>, span: Span, limit: nat, at: nat) {
    && at <= |worst| <= limit && limit > 0
    && (|worst| < limit || Duration(span) > Duration(worst[|worst| - 1]))
    && (forall i :: 0 <= i < at ==> Duration(worst[i]) >= Duration(span))
    && (forall i :: at <= i < |worst| ==> Duration(worst[i]) <= Duration(span))
  }

  lemma InsertedKeeps(worst: seq<Span>, stream: seq<Span>, span: Span, limit: nat, at: nat)
    requires Slowest(worst, stream, limit) && Fits(worst, span, limit, at)
    ensures Slowest(Inserted(worst, span, at, limit), stream + [span], limit)
  {
    var more := worst[..at] + [span] + worst[at..];
    StaysDescending(worst, span, at, limit, more);
    assert worst == worst[..at] + worst[at..];
    assert multiset(more) == multiset(worst) + multiset{span};
    hide Fits, Descending, Duration;
    if |worst| == limit {
      CutKeeps(worst, stream, span, limit, at, more);
    } else {
      SlowestSmall(worst, stream, limit);
    }
  }

  lemma StaysDescending(worst: seq<Span>, span: Span, at: nat, limit: nat, more: seq<Span>)
    requires Fits(worst, span, limit, at) && Descending(worst) && more == worst[..at] + [span] + worst[at..]
    ensures Descending(more)
  {
  }

  lemma CutKeeps(worst: seq<Span>, stream: seq<Span>, span: Span, limit: nat, at: nat, more: seq<Span>)
    requires Slowest(worst, stream, limit) && Fits(worst, span, limit, at) && |worst| == limit
    requires more == worst[..at] + [span] + worst[at..] && Descending(more)
             && multiset(more) == multiset(worst) + multiset{span}
    ensures Slowest(more[..limit], stream + [span], limit)
  {
    var kept, dropped := more[..limit], more[limit];
    assert dropped == worst[|worst| - 1] by { LastStays(worst, span, limit, at, more); }
    hide Fits, Duration;
    assert more == kept + [dropped];
    assert multiset(more) == multiset(kept) + multiset{dropped};
    assert Descending(kept) by {
      assert forall i :: 0 <= i < limit ==> kept[i] == more[i];
    }
    assert forall one :: one in kept ==> Duration(one) >= Duration(dropped) by {
      assert forall k :: 0 <= k < limit ==> Duration(more[k]) >= Duration(more[limit]);
    }
    hide Descending;
    assert multiset(stream + [span]) == multiset(stream) + multiset{span};
    CutLeaves(worst, stream, kept, span, dropped);
  }

  lemma CutLeaves(worst: seq<Span>, stream: seq<Span>, kept: seq<Span>, span: Span, dropped: Span)
    requires multiset(worst) <= multiset(stream)
             && multiset(kept) + multiset{dropped} == multiset(worst) + multiset{span}
    requires forall left, one :: left in multiset(stream) - multiset(worst) && one in worst ==>
               Duration(left) <= Duration(one)
    requires dropped in worst && forall one :: one in kept ==> Duration(one) >= Duration(dropped)
    ensures multiset(kept) <= multiset(stream) + multiset{span}
    ensures forall left, one :: left in multiset(stream) + multiset{span} - multiset(kept) && one in kept ==>
              Duration(left) <= Duration(one)
  {
    hide Duration;
    Traded(multiset(worst), multiset(stream), multiset(kept), span, dropped);
    forall left, one | left in multiset(stream) + multiset{span} - multiset(kept) && one in kept
      ensures Duration(left) <= Duration(one)
    {
      assert left != dropped ==> left in multiset(stream) - multiset(worst);
    }
  }

  /** Trading one element of a part for one from outside. */
  lemma Traded(part: multiset<Span>, whole: multiset<Span>, after: multiset<Span>, gained: Span, lost: Span)
    requires part <= whole && after + multiset{lost} == part + multiset{gained}
    ensures after <= whole + multiset{gained}
    ensures forall left :: left in whole + multiset{gained} - after && left != lost ==> left in whole - part
  {
    forall left: Span
      ensures after[left] + (if left == lost then 1 else 0) == part[left] + if left == gained then 1 else 0
    {
      assert (after + multiset{lost})[left] == (part + multiset{gained})[left];
    }
  }

  lemma LastStays(worst: seq<Span>, span: Span, limit: nat, at: nat, more: seq<Span>)
    requires Fits(worst, span, limit, at) && |worst| == limit && more == worst[..at] + [span] + worst[at..]
    ensures more[limit] == worst[limit - 1]
  {
    assert at < |worst|;
  }

  lemma SlowestSmall(worst: seq<Span>, stream: seq<Span>, limit: nat)
    requires Slowest(worst, stream, limit) && |worst| < limit
    ensures multiset(stream) == multiset(worst)
  {
    assert |multiset(stream) - multiset(worst)| == 0;
  }

  // ---------------------------------------------------------------- failure groups

  const MAX_FAILURE_GROUPS: nat := 4096

  datatype Key = Key(service: string, name: string, status: string)

  function KeyOf(span: Span): Key { Key(span.service, span.name, span.status) }

  datatype Group = Group(count: nat, firstSeen: U64, lastSeen: U64, exampleTrace: string, exampleSpan: string)

  /** The keys that get a group: the first so many to appear. */
  function Tracked(stream: seq<Span>): set<Key> {
    if stream == [] then {}
    else
      var before, key := Tracked(stream[..|stream| - 1]), KeyOf(stream[|stream| - 1]);
      if key in before || |before| >= MAX_FAILURE_GROUPS then before else before + {key}
  }

  function CountOf(stream: seq<Span>, key: Key): nat {
    if stream == [] then 0
    else CountOf(stream[..|stream| - 1], key) + if KeyOf(stream[|stream| - 1]) == key then 1 else 0
  }

  function CountIn(stream: seq<Span>, keys: set<Key>): nat {
    if stream == [] then 0
    else CountIn(stream[..|stream| - 1], keys) + if KeyOf(stream[|stream| - 1]) in keys then 1 else 0
  }

  predicate Within(group: Group, stream: seq<Span>, key: Key) {
    forall i :: 0 <= i < |stream| && KeyOf(stream[i]) == key ==> group.firstSeen <= stream[i].start <= group.lastSeen
  }

  predicate EarliestAt(group: Group, stream: seq<Span>, key: Key, i: nat) {
    i < |stream| && KeyOf(stream[i]) == key && stream[i].start == group.firstSeen
  }

  /** The last of the newest, which is the example. */
  predicate NewestAt(group: Group, stream: seq<Span>, key: Key, i: nat) {
    && i < |stream| && KeyOf(stream[i]) == key && stream[i].start == group.lastSeen
    && stream[i].traceId == group.exampleTrace && stream[i].spanId == group.exampleSpan
    && forall j :: i < j < |stream| && KeyOf(stream[j]) == key ==> stream[j].start < group.lastSeen
  }

  /** A group says of its key exactly what the stream does: how often, from when to when, and the last of the newest. */
  ghost predicate Describes(group: Group, stream: seq<Span>, key: Key) {
    && group.count == CountOf(stream, key) && Within(group, stream, key)
    && (exists i: nat :: EarliestAt(group, stream, key, i)) && (exists i: nat :: NewestAt(group, stream, key, i))
  }

  /** One more span of a group's key. */
  function Counted(group: Group, span: Span): Group {
    var newest := span.start >= group.lastSeen;
    Group(group.count + 1, if span.start < group.firstSeen then span.start else group.firstSeen,
          if newest then span.start else group.lastSeen, if newest then span.traceId else group.exampleTrace,
          if newest then span.spanId else group.exampleSpan)
  }

  const NO_GROUP := Group(0, U64_MAX, 0, "", "")

  lemma TrackedNext(stream: seq<Span>, span: Span)
    ensures var before := Tracked(stream);
            Tracked(stream + [span])
            == if KeyOf(span) in before || |before| >= MAX_FAILURE_GROUPS then before else before + {KeyOf(span)}
    ensures forall key :: CountOf(stream + [span], key) == CountOf(stream, key) + if KeyOf(span) == key then 1 else 0
    ensures forall keys ::
              CountIn(stream + [span], keys) == CountIn(stream, keys) + if KeyOf(span) in keys then 1 else 0
  {
    var more := stream + [span];
    assert more[..|more| - 1] == stream && more[|more| - 1] == span;
  }

  lemma CountedDescribes(group: Group, stream: seq<Span>, span: Span)
    requires Describes(group, stream, KeyOf(span))
    ensures Describes(Counted(group, span), stream + [span], KeyOf(span))
  {
    TrackedNext(stream, span);
    var key, after := KeyOf(span), Counted(group, span);
    var first: nat :| EarliestAt(group, stream, key, first);
    var last: nat :| NewestAt(group, stream, key, last);
    CountedWithin(group, stream, span);
    CountedEarliest(group, stream, span, first);
    CountedNewest(group, stream, span, last);
    hide Counted, EarliestAt, NewestAt, Within, CountOf, KeyOf;
    assert after.count == group.count + 1 by { CountedCount(group, span); }
  }

  lemma CountedCount(group: Group, span: Span)
    ensures Counted(group, span).count == group.count + 1
  {
  }

  lemma CountedWithin(group: Group, stream: seq<Span>, span: Span)
    requires Within(group, stream, KeyOf(span))
    ensures Within(Counted(group, span), stream + [span], KeyOf(span))
  {
  }

  lemma CountedEarliest(group: Group, stream: seq<Span>, span: Span, first: nat)
    requires EarliestAt(group, stream, KeyOf(span), first)
    ensures EarliestAt(Counted(group, span), stream + [span], KeyOf(span),
                       if span.start < group.firstSeen then |stream| else first)
  {
  }

  lemma CountedNewest(group: Group, stream: seq<Span>, span: Span, last: nat)
    requires NewestAt(group, stream, KeyOf(span), last)
    ensures NewestAt(Counted(group, span), stream + [span], KeyOf(span),
                     if span.start >= group.lastSeen then |stream| else last)
  {
  }

  lemma FirstDescribes(stream: seq<Span>, span: Span)
    requires CountOf(stream, KeyOf(span)) == 0
    ensures Describes(Counted(NO_GROUP, span), stream + [span], KeyOf(span))
  {
    TrackedNext(stream, span);
    FirstBounds(stream, span);
    hide CountOf, KeyOf, Within, EarliestAt, NewestAt;
  }

  lemma FirstBounds(stream: seq<Span>, span: Span)
    requires CountOf(stream, KeyOf(span)) == 0
    ensures var group, more, key := Counted(NO_GROUP, span), stream + [span], KeyOf(span);
            Within(group, more, key) && EarliestAt(group, more, key, |stream|) && NewestAt(group, more, key, |stream|)
    ensures Counted(NO_GROUP, span).count == 1
  {
    NoneCounted(stream, KeyOf(span));
    hide CountOf, KeyOf;
    OnlyLast(stream, span);
    FirstSeen(span);
    hide Counted;
  }

  lemma OnlyLast(stream: seq<Span>, span: Span)
    requires forall i :: 0 <= i < |stream| ==> KeyOf(stream[i]) != KeyOf(span)
    ensures var more := stream + [span];
            more[|stream|] == span && forall i :: 0 <= i < |more| && KeyOf(more[i]) == KeyOf(span) ==> i == |stream|
  {
    hide KeyOf;
  }

  lemma FirstSeen(span: Span)
    ensures Counted(NO_GROUP, span) == Group(1, span.start, span.start, span.traceId, span.spanId)
  {
  }

  lemma {:induction false} NoneCounted(stream: seq<Span>, key: Key)
    requires CountOf(stream, key) == 0
    ensures forall i :: 0 <= i < |stream| ==> KeyOf(stream[i]) != key
  {
    if stream != [] {
      NoneCounted(stream[..|stream| - 1], key);
    }
  }

  lemma OtherDescribes(group: Group, stream: seq<Span>, span: Span, key: Key)
    requires Describes(group, stream, key) && key != KeyOf(span)
    ensures Describes(group, stream + [span], key)
  {
    TrackedNext(stream, span);
    hide CountOf;
    var first: nat :| EarliestAt(group, stream, key, first);
    var last: nat :| NewestAt(group, stream, key, last);
    assert EarliestAt(group, stream + [span], key, first);
    assert NewestAt(group, stream + [span], key, last);
  }

  /** A key misses out only when the groups are full. */
  lemma {:induction false} OnlyWhenFull(stream: seq<Span>, key: Key)
    ensures |Tracked(stream)| <= 4096
    ensures |Tracked(stream)| < 4096 && key !in Tracked(stream) ==> CountOf(stream, key) == 0
    ensures key in Tracked(stream) ==> CountOf(stream, key) > 0
  {
    if stream != [] {
      var front, last := stream[..|stream| - 1], stream[|stream| - 1];
      OnlyWhenFull(front, key);
      assert front + [last] == stream;
      TrackedNext(front, last);
    }
  }

  lemma {:induction false} CountInMore(stream: seq<Span>, keys: set<Key>, key: Key)
    requires key !in keys
    ensures CountIn(stream, keys + {key}) == CountIn(stream, keys) + CountOf(stream, key)
  {
    if stream != [] {
      CountInMore(stream[..|stream| - 1], keys, key);
    }
  }

  /** The groups are those of the first keys to appear, and say of them what the stream does. */
  ghost predicate Exact(groups: map<Key, Group>, stream: seq<Span>) {
    groups.Keys == Tracked(stream) && forall key :: key in groups ==> Describes(groups[key], stream, key)
  }

  /** Every group's numbers are exact, whatever was left without one; the total counts everything, and what is untracked
      is what has no group. */
  method Failures(stream: seq<Span>) returns (groups: map<Key, Group>, total: nat, untracked: nat)
    ensures Exact(groups, stream) && total == |stream| && untracked == total - CountIn(stream, groups.Keys)
    ensures forall key :: key in groups ==> exists span ::
              && span in stream && span.service == key.service && span.name == key.name && span.status == key.status
              && span.start == groups[key].lastSeen && span.traceId == groups[key].exampleTrace
  {
    groups, total, untracked := map[], 0, 0;
    assert stream[..0] == [] && Exact(groups, []);
    hide Exact;
    for n := 0 to |stream|
      invariant Exact(groups, stream[..n]) && total == n && untracked == n - CountIn(stream[..n], groups.Keys)
    {
      assert stream[..n + 1] == stream[..n] + [stream[n]];
      var tracked: bool;
      groups, tracked := Count(groups, stream[..n], stream[n]);
      total := total + 1;
      if !tracked {
        untracked := untracked + 1;
      }
    }
    assert stream[..|stream|] == stream;
    forall key | key in groups
      ensures exists span ::
                && span in stream && span.service == key.service && span.name == key.name && span.status == key.status
                && span.start == groups[key].lastSeen && span.traceId == groups[key].exampleTrace
    {
      ExampleIsThere(groups, stream, key);
    }
  }

  lemma ExampleIsThere(groups: map<Key, Group>, stream: seq<Span>, key: Key)
    requires Exact(groups, stream) && key in groups
    ensures exists span ::
              && span in stream && span.service == key.service && span.name == key.name && span.status == key.status
              && span.start == groups[key].lastSeen && span.traceId == groups[key].exampleTrace
  {
    var i: nat :| NewestAt(groups[key], stream, key, i);
    assert stream[i] in stream;
  }

  /** One span more; a new key finds no room once the groups are full. */
  method Count(groups: map<Key, Group>, ghost stream: seq<Span>, span: Span) returns (r: map<Key, Group>, tracked: bool)
    requires Exact(groups, stream)
    ensures Exact(r, stream + [span])
    ensures CountIn(stream + [span], r.Keys) == CountIn(stream, groups.Keys) + if tracked then 1 else 0
  {
    TrackedNext(stream, span);
    OnlyWhenFull(stream, KeyOf(span));
    hide Describes, KeyOf, Counted, CountOf, CountIn, Tracked;
    var key := KeyOf(span);
    OthersDescribe(groups, stream, span);
    assert |groups.Keys| == |groups|;
    if key in groups {
      CountedDescribes(groups[key], stream, span);
      r := groups[key := Counted(groups[key], span)];
      assert r.Keys == groups.Keys;
      tracked := true;
    } else if |groups| >= MAX_FAILURE_GROUPS {
      r, tracked := groups, false;
    } else {
      FirstDescribes(stream, span);
      CountInMore(stream, groups.Keys, key);
      r := groups[key := Counted(NO_GROUP, span)];
      assert r.Keys == groups.Keys + {key};
      tracked := true;
    }
  }

  lemma OthersDescribe(groups: map<Key, Group>, stream: seq<Span>, span: Span)
    requires Exact(groups, stream)
    ensures forall key :: key in groups && key != KeyOf(span) ==> Describes(groups[key], stream + [span], key)
  {
    hide Describes, KeyOf;
    forall key | key in groups && key != KeyOf(span)
      ensures Describes(groups[key], stream + [span], key)
    {
      OtherDescribes(groups[key], stream, span, key);
    }
  }

  // ---------------------------------------------------------------- time buckets

  datatype Window = Window(since: U64, until: U64, count: nat)

  function Buckets(window: Window): nat { Max(1, Min(window.count, 512)) }

  function Width(window: Window): nat {
    var length := Max(SaturatingSub(window.until, window.since), 1);
    Max(length / Buckets(window) + (if length % Buckets(window) != 0 then 1 else 0), 1)
  }

  function BucketOf(window: Window, start: U64): (i: nat)
    ensures i < Buckets(window)
  {
    Min(SaturatingSub(start, window.since) / Width(window), Buckets(window) - 1)
  }

  /** The start of a bucket, computed in saturating 64-bit arithmetic and kept in the window. */
  function StartOf(window: Window, i: nat): nat {
    Min(SaturatingAdd(window.since, if Width(window) * i <= U64_MAX then Width(window) * i else U64_MAX), window.until)
  }

  /** The buckets reach the end of the window, and a nanosecond less each would not. */
  lemma WidthIsCeiling(window: Window)
    requires window.since < window.until
    ensures Width(window) * Buckets(window) >= window.until - window.since
    ensures (Width(window) - 1) * Buckets(window) < window.until - window.since
    ensures Width(window) <= U64_MAX
  {
    var length, n := window.until - window.since, Buckets(window);
    var quotient, rest := length / n, length % n;
    assert length == quotient * n + rest;
    if rest != 0 {
      assert Width(window) == quotient + 1;
      Distribute(quotient, n);
    } else {
      assert quotient >= 1 by { assert quotient == 0 ==> length == 0; }
      Distribute(quotient - 1, n);
    }
  }

  lemma Distribute(a: int, n: int)
    ensures (a + 1) * n == a * n + n
  {
  }

  /** A span in the window is in the bucket its start falls in: from the bucket's start to before the next one's. */
  lemma InItsBucket(window: Window, start: U64)
    requires window.since < window.until && window.since <= start <= window.until
    ensures var i := BucketOf(window, start);
            && StartOf(window, i) <= start
            && (i + 1 < Buckets(window) ==> start < StartOf(window, i + 1) || start == window.until)
            && start <= window.since + Width(window) * Buckets(window)
  {
    WidthIsCeiling(window);
    var i, width := BucketOf(window, start), Width(window);
    hide *;
    var low, high, reach := i * width, (i + 1) * width, width * Buckets(window);
    StartIs(window, i, low);
    StartIs(window, i + 1, high);
    BucketBrackets(window, start);
    InBetween(window, start, low, high, reach, i + 1 < Buckets(window));
  }

  lemma InBetween(window: Window, start: U64, low: int, high: int, reach: int, bounded: bool)
    requires window.since <= start <= window.until && low <= start - window.since <= reach
    requires bounded ==> start - window.since < high
    ensures Min(Min(window.since + low, U64_MAX), window.until) <= start <= window.since + reach
    ensures bounded ==> start < Min(Min(window.since + high, U64_MAX), window.until) || start == window.until
  {
  }

  lemma BucketBrackets(window: Window, start: U64)
    requires window.since < window.until && window.since <= start <= window.until
    ensures var i, width := BucketOf(window, start), Width(window);
            i * width <= start - window.since && (i + 1 < Buckets(window) ==> start - window.since < (i + 1) * width)
  {
    var offset, width := start - window.since, Width(window);
    var quotient, i := offset / width, BucketOf(window, start);
    QuotientBrackets(offset, width, quotient);
    assert i <= quotient && (i + 1 < Buckets(window) ==> i == quotient);
    hide *;
    MultiplyMonotone(i, quotient, width);
    Distribute(i, width);
  }

  lemma QuotientBrackets(offset: nat, width: nat, quotient: nat)
    requires width > 0 && quotient == offset / width
    ensures quotient * width <= offset < quotient * width + width
  {
  }

  lemma StartIs(window: Window, i: nat, product: int)
    requires product == i * Width(window)
    ensures StartOf(window, i) == Min(Min(window.since + product, U64_MAX), window.until)
  {
    assert Width(window) * i == product;
  }

  /** How many spans, or how many errors, start in a bucket. */
  function InBucket(stream: seq<Span>, window: Window, i: nat, errorsOnly: bool): nat {
    if stream == [] then 0
    else
      var last := stream[|stream| - 1];
      InBucket(stream[..|stream| - 1], window, i, errorsOnly)
      + if BucketOf(window, last.start) == i && (errorsOnly ==> last.status == "error") then 1 else 0
  }

  /** Counters that hold the buckets of a stream. */
  ghost predicate Tallied(counts: seq<nat>, stream: seq<Span>, window: Window, errorsOnly: bool) {
    |counts| == Buckets(window) && forall i: nat :: i < |counts| ==>
      counts[i] == InBucket(stream, window, i, errorsOnly)
  }

  lemma TalliedNext(counts: seq<nat>, stream: seq<Span>, span: Span, window: Window, errorsOnly: bool)
    requires Tallied(counts, stream, window, errorsOnly)
    ensures var i := BucketOf(window, span.start);
            Tallied(if errorsOnly ==> span.status == "error" then counts[i := counts[i] + 1] else counts,
                    stream + [span], window, errorsOnly)
  {
    hide BucketOf, Buckets;
    assert (stream + [span])[..|stream|] == stream;
  }

  lemma TalliedNone(counts: seq<nat>, window: Window, errorsOnly: bool)
    requires |counts| == Buckets(window) && forall i :: 0 <= i < |counts| ==> counts[i] == 0
    ensures Tallied(counts, [], window, errorsOnly)
  {
  }

  function Sum(counts: seq<nat>): nat {
    if counts == [] then 0 else Sum(counts[..|counts| - 1]) + counts[|counts| - 1]
  }

  lemma {:induction false} SumOneMore(counts: seq<nat>, i: nat)
    requires i < |counts|
    ensures Sum(counts[i := counts[i] + 1]) == Sum(counts) + 1
  {
    var more, n := counts[i := counts[i] + 1], |counts| - 1;
    if i == n {
      assert more[..n] == counts[..n];
    } else {
      assert more[..n] == counts[..n][i := counts[..n][i] + 1];
      SumOneMore(counts[..n], i);
    }
  }

  lemma {:induction false} SumOfNone(counts: seq<nat>)
    requires forall i :: 0 <= i < |counts| ==> counts[i] == 0
    ensures Sum(counts) == 0
  {
    if counts != [] {
      SumOfNone(counts[..|counts| - 1]);
    }
  }

  method AddOne(counts: array<nat>, i: nat)
    requires i < counts.Length
    modifies counts
    ensures counts[..] == old(counts[..][i := counts[i] + 1])
  {
    counts[i] := counts[i] + 1;
  }

  /** Volume and errors by bucket: every span is in exactly one, so the buckets add up to the stream. */
  method Series(stream: seq<Span>, window: Window) returns (spans: array<nat>, errors: array<nat>)
    ensures fresh(spans) && fresh(errors)
    ensures Tallied(spans[..], stream, window, false) && Tallied(errors[..], stream, window, true)
    ensures Sum(spans[..]) == |stream|
    ensures spans.Length == errors.Length == (if window.count == 0 then 1
                                              else if window.count <= 512 then window.count else 512)
  {
    spans, errors := new nat[Buckets(window)](_ => 0), new nat[Buckets(window)](_ => 0);
    SumOfNone(spans[..]);
    TalliedNone(spans[..], window, false);
    TalliedNone(errors[..], window, true);
    ghost var read: seq<Span> := [];
    for n := 0 to |stream|
      invariant read == stream[..n] && spans != errors && fresh(spans) && fresh(errors)
      invariant Tallied(spans[..], read, window, false) && Tallied(errors[..], read, window, true)
                && Sum(spans[..]) == n
    {
      TallyOne(spans, errors, window, read, stream[n]);
      read := read + [stream[n]];
    }
    assert read == stream;
  }

  method TallyOne(spans: array<nat>, errors: array<nat>, window: Window, ghost stream: seq<Span>, span: Span)
    requires spans != errors && Tallied(spans[..], stream, window, false) && Tallied(errors[..], stream, window, true)
    modifies spans, errors
    ensures Tallied(spans[..], stream + [span], window, false) && Tallied(errors[..], stream + [span], window, true)
    ensures Sum(spans[..]) == old(Sum(spans[..])) + 1
  {
    hide BucketOf, Buckets, InBucket, Sum;
    var index := BucketOf(window, span.start);
    TalliedNext(spans[..], stream, span, window, false);
    TalliedNext(errors[..], stream, span, window, true);
    SumOneMore(spans[..], index);
    AddOne(spans, index);
    if span.status == "error" {
      AddOne(errors, index);
    }
  }
}

/** Attributing a failed run (`src/attribution.rs`): the earliest error none of whose children failed too, and the walk
    that measures how deep a step repeats among its own ancestors. */
module Attribution {
  import opened Common
  import opened CanonicalJson

  datatype Span = Span(traceId: string, spanId: string, parent: Option<string>, service: string, name: string,
                       status: string, start: U64)

  /** The status is "error" in any case. */
  predicate IsError(span: Span) {
    |span.status| == 5 && forall i :: 0 <= i < 5 ==> LowerChar(span.status[i]) == "error"[i]
  }

  datatype Node = Node(traceId: string, spanId: string)

  function NodeOf(span: Span): Node { Node(span.traceId, span.spanId) }

  /** The node a span names as its parent; an empty name is none. */
  function ParentOf(span: Span): Option<Node> {
    if span.parent.Some? && span.parent.value != "" then Some(Node(span.traceId, span.parent.value)) else None
  }

  // ---------------------------------------------------------------- the cause

  /** An error none of whose children is one. */
  predicate LeafError(spans: seq<Span>, span: Span) {
    IsError(span) && forall child :: child in spans && IsError(child) ==> ParentOf(child) != Some(NodeOf(span))
  }

  /** Earlier start, then trace, then span. */
  predicate Earlier(a: Span, b: Span) {
    a.start < b.start
    || (a.start == b.start && (Less(a.traceId, b.traceId) || (a.traceId == b.traceId && Less(a.spanId, b.spanId))))
  }

  /** The position of the cause: a leaf error, none earlier, the first of equals. */
  predicate CauseAt(spans: seq<Span>, at: nat) {
    && at < |spans| && LeafError(spans, spans[at])
    && (forall i :: 0 <= i < |spans| && LeafError(spans, spans[i]) ==> !Earlier(spans[i], spans[at]))
    && (forall i :: 0 <= i < at && LeafError(spans, spans[i]) ==> Earlier(spans[at], spans[i]))
  }

  /** The nodes that failed spans name as parents. */
  method ErroredParents(spans: seq<Span>) returns (parents: set<Node>)
    ensures forall node :: node in parents <==>
              exists k :: 0 <= k < |spans| && IsError(spans[k]) && ParentOf(spans[k]) == Some(node)
  {
    hide IsError;
    parents := {};
    for i := 0 to |spans|
      invariant forall node :: node in parents <==>
                  exists k :: 0 <= k < i && IsError(spans[k]) && ParentOf(spans[k]) == Some(node)
    {
      if IsError(spans[i]) && ParentOf(spans[i]).Some? {
        parents := parents + {ParentOf(spans[i]).value};
      }
    }
  }

  method LeafErrorCause(spans: seq<Span>) returns (cause: Option<Span>)
    ensures cause.None? <==> forall span :: span in spans ==> !LeafError(spans, span)
    ensures cause.Some? ==> exists at: nat :: CauseAt(spans, at) && spans[at] == cause.value
    ensures cause.Some? ==> forall span :: span in spans && LeafError(spans, span) ==> NotAfter(cause.value, span)
  {
    hide IsError, Earlier, LeafError, CauseAmong, CauseAt;
    var erroredParents := ErroredParents(spans);
    cause := None;
    ghost var at := 0;
    for i := 0 to |spans|
      invariant cause.None? ==> forall k :: 0 <= k < i ==> !LeafError(spans, spans[k])
      invariant cause.Some? ==> at < i && spans[at] == cause.value && CauseAmong(spans, at, i)
    {
      LeafErrorByParents(spans, spans[i], erroredParents);
      if IsError(spans[i]) && NodeOf(spans[i]) !in erroredParents {
        if cause.None? {
          FirstCause(spans, i);
          cause, at := Some(spans[i]), i;
        } else if Earlier(spans[i], cause.value) {
          EarlierCause(spans, at, i);
          cause, at := Some(spans[i]), i;
        } else {
          SameCause(spans, at, i);
        }
      } else if cause.Some? {
        SameCause(spans, at, i);
      }
    }
    if cause.Some? {
      AmongAll(spans, at);
      CauseIsNotAfter(spans, at);
    }
  }

  /** Nothing starts before it; of what starts with it, nothing has a smaller trace; within its trace, nothing has a
      smaller span. */
  predicate NotAfter(a: Span, b: Span) {
    && a.start <= b.start
    && (a.start == b.start ==> !Less(b.traceId, a.traceId))
    && (a.start == b.start && a.traceId == b.traceId ==> !Less(b.spanId, a.spanId))
  }

  lemma CauseIsNotAfter(spans: seq<Span>, at: nat)
    requires CauseAt(spans, at)
    ensures forall span :: span in spans && LeafError(spans, span) ==> NotAfter(spans[at], span)
  {
    forall span | span in spans && LeafError(spans, span)
      ensures NotAfter(spans[at], span)
    {
      var i :| 0 <= i < |spans| && spans[i] == span;
      hide LeafError;
      assert !Earlier(spans[i], spans[at]);
    }
  }

  /** The five letters, each in either case. */
  lemma ErrorInAnyCase(span: Span)
    ensures IsError(span) <==>
            && |span.status| == 5 && span.status[0] in "eE" && span.status[1] in "rR" && span.status[2] in "rR"
            && span.status[3] in "oO" && span.status[4] in "rR"
  {
    var word := "error";
    if IsError(span) {
      forall i | 0 <= i < 5
        ensures LowerChar(span.status[i]) == word[i]
      {
      }
      assert LowerChar(span.status[0]) == 'e' && LowerChar(span.status[1]) == 'r' && LowerChar(span.status[2]) == 'r';
      assert LowerChar(span.status[3]) == 'o' && LowerChar(span.status[4]) == 'r';
    }
  }

  predicate CauseAmong(spans: seq<Span>, at: nat, to: nat)
    requires at < to <= |spans|
  {
    && LeafError(spans, spans[at])
    && (forall i :: 0 <= i < to && LeafError(spans, spans[i]) ==> !Earlier(spans[i], spans[at]))
    && (forall i :: 0 <= i < at && LeafError(spans, spans[i]) ==> Earlier(spans[at], spans[i]))
  }

  lemma FirstCause(spans: seq<Span>, i: nat)
    requires i < |spans| && LeafError(spans, spans[i]) && forall k :: 0 <= k < i ==> !LeafError(spans, spans[k])
    ensures CauseAmong(spans, i, i + 1)
  {
    hide Earlier, LeafError;
    EarlierIrreflexive(spans[i]);
  }

  lemma SameCause(spans: seq<Span>, at: nat, i: nat)
    requires at < i < |spans| && CauseAmong(spans, at, i)
    requires LeafError(spans, spans[i]) ==> !Earlier(spans[i], spans[at])
    ensures CauseAmong(spans, at, i + 1)
  {
    hide Earlier, LeafError;
  }

  lemma AmongAll(spans: seq<Span>, at: nat)
    requires at < |spans| && CauseAmong(spans, at, |spans|)
    ensures CauseAt(spans, at) && spans[at] in spans && LeafError(spans, spans[at])
  {
    hide Earlier, LeafError;
  }

  lemma EarlierIrreflexive(a: Span)
    ensures !Earlier(a, a)
  {
    LessTotal(a.traceId, a.traceId);
    LessTotal(a.spanId, a.spanId);
  }

  lemma EarlierAsymmetric(a: Span, b: Span)
    requires Earlier(a, b)
    ensures !Earlier(b, a)
  {
    LessTotal(a.traceId, b.traceId);
    LessTotal(a.spanId, b.spanId);
  }

  lemma EarlierCause(spans: seq<Span>, at: nat, i: nat)
    requires at < i < |spans| && CauseAmong(spans, at, i) && LeafError(spans, spans[i]) && Earlier(spans[i], spans[at])
    ensures CauseAmong(spans, i, i + 1)
  {
    hide Earlier, LeafError;
    EarlierIrreflexive(spans[i]);
    forall k | 0 <= k < i && LeafError(spans, spans[k])
      ensures !Earlier(spans[k], spans[i]) && Earlier(spans[i], spans[k])
    {
      EarlierThrough(spans[i], spans[at], spans[k]);
      EarlierAsymmetric(spans[i], spans[k]);
    }
  }

  lemma EarlierThrough(a: Span, b: Span, c: Span)
    requires Earlier(a, b) && !Earlier(c, b)
    ensures Earlier(a, c)
  {
    LessTotal(a.traceId, b.traceId);
    LessTotal(b.traceId, c.traceId);
    LessTotal(a.spanId, b.spanId);
    LessTotal(b.spanId, c.spanId);
    if Less(a.traceId, b.traceId) && Less(b.traceId, c.traceId) {
      LessTransitive(a.traceId, b.traceId, c.traceId);
    }
    if Less(a.spanId, b.spanId) && Less(b.spanId, c.spanId) {
      LessTransitive(a.spanId, b.spanId, c.spanId);
    }
  }

  lemma LeafErrorByParents(spans: seq<Span>, span: Span, erroredParents: set<Node>)
    requires forall node :: node in erroredParents <==>
               exists k :: 0 <= k < |spans| && IsError(spans[k]) && ParentOf(spans[k]) == Some(node)
    ensures LeafError(spans, span) <==> IsError(span) && NodeOf(span) !in erroredParents
  {
    hide IsError;
    if NodeOf(span) in erroredParents {
      var k :| 0 <= k < |spans| && IsError(spans[k]) && ParentOf(spans[k]) == Some(NodeOf(span));
      assert spans[k] in spans;
    }
  }

  // ---------------------------------------------------------------- when there is one

  /** Errors are numbered so that a failed child's number is above its parent's: no chain of failed parents closes. */
  ghost predicate Ranks(spans: seq<Span>, rank: Node -> nat) {
    forall span :: span in spans && IsError(span) && ParentOf(span).Some? ==>
      rank(ParentOf(span).value) < rank(NodeOf(span))
  }

  /** Where failed parents form no cycle, a run with an error has a cause. */
  lemma {:induction false} CauseExists(spans: seq<Span>, rank: Node -> nat, from: Span)
    requires Ranks(spans, rank) && from in spans && IsError(from)
    ensures exists span :: span in spans && LeafError(spans, span)
    decreases HighestRank(spans, rank) - rank(NodeOf(from))
  {
    hide IsError;
    if !LeafError(spans, from) {
      var child :| child in spans && IsError(child) && ParentOf(child) == Some(NodeOf(from));
      HighestIsHighest(spans, rank, child);
      CauseExists(spans, rank, child);
    }
  }

  function HighestRank(spans: seq<Span>, rank: Node -> nat): nat {
    if spans == [] then 0 else Max(rank(NodeOf(spans[0])), HighestRank(spans[1..], rank))
  }

  lemma {:induction false} HighestIsHighest(spans: seq<Span>, rank: Node -> nat, span: Span)
    requires span in spans
    ensures rank(NodeOf(span)) <= HighestRank(spans, rank)
  {
    if span != spans[0] {
      HighestIsHighest(spans[1..], rank, span);
    }
  }

  /** Two failed spans that name each other as parent: an error, and no cause. */
  lemma CyclesHaveNoCause()
    returns (spans: seq<Span>)
    ensures (exists span :: span in spans && IsError(span)) && forall span :: span in spans ==> !LeafError(spans, span)
  {
    var a, b := Span("t", "a", Some("b"), "s", "n", "error", 0), Span("t", "b", Some("a"), "s", "n", "error", 0);
    spans := [a, b];
    assert a in spans && b in spans && IsError(a) && IsError(b);
  }

  // ---------------------------------------------------------------- rings of parents

  predicate Distinct(walk: seq<nat>) { forall j, k :: 0 <= j < k < |walk| ==> walk[j] != walk[k] }

  /** The span at `j` names the span at `i` as its parent. */
  predicate IsChild(spans: seq<Span>, j: nat, i: nat) {
    i < |spans| && j < |spans| && ParentOf(spans[j]) == Some(NodeOf(spans[i]))
  }

  function After(ring: seq<nat>, k: nat): nat { if k + 1 == |ring| then 0 else k + 1 }

  /** Positions each of which is the parent of the next, and the last that of the first. */
  predicate IsRing(spans: seq<Span>, ring: seq<nat>) {
    ring != [] && forall k :: 0 <= k < |ring| ==> IsChild(spans, ring[After(ring, k)], ring[k])
  }

  /** The run with its parent links and exactly these spans failed. */
  function Failing(spans: seq<Span>, failed: set<nat>): seq<Span> {
    seq(|spans|, i requires 0 <= i < |spans| => spans[i].(status := if i in failed then "error" else "ok"))
  }

  ghost predicate HasCause(spans: seq<Span>) { exists span :: span in spans && LeafError(spans, span) }

  predicate Choice(spans: seq<Span>, failed: set<nat>) {
    failed != {} && forall i :: i in failed ==> i < |spans|
  }

  lemma FailingAt(spans: seq<Span>, failed: set<nat>, i: nat)
    requires i < |spans|
    ensures var span := Failing(spans, failed)[i];
            && |Failing(spans, failed)| == |spans| && (IsError(span) <==> i in failed)
            && ParentOf(span) == ParentOf(spans[i]) && NodeOf(span) == NodeOf(spans[i])
  {
    assert IsError(spans[i].(status := "error"));
  }

  /** Without a cause every failed span has a failed child. */
  lemma FailedChild(spans: seq<Span>, failed: set<nat>, i: nat) returns (j: nat)
    requires i in failed && i < |spans| && !HasCause(Failing(spans, failed))
    ensures j in failed && IsChild(spans, j, i)
  {
    hide IsError, Failing;
    FailingAt(spans, failed, i);
    j := ErringChild(Failing(spans, failed), i);
    hide *;
    FailingAt(spans, failed, j);
    ChildOf(spans, failed, j, i);
  }

  lemma ErringChild(run: seq<Span>, i: nat) returns (j: nat)
    requires i < |run| && IsError(run[i]) && !HasCause(run)
    ensures j < |run| && IsError(run[j]) && ParentOf(run[j]) == Some(NodeOf(run[i]))
  {
    hide IsError;
    assert run[i] in run && !LeafError(run, run[i]);
    var child :| child in run && IsError(child) && ParentOf(child) == Some(NodeOf(run[i]));
    j :| j < |run| && run[j] == child;
  }

  lemma ChildOf(spans: seq<Span>, failed: set<nat>, j: nat, i: nat)
    requires i < |spans| && j < |spans| && |Failing(spans, failed)| == |spans|
    requires ParentOf(Failing(spans, failed)[j]) == Some(NodeOf(Failing(spans, failed)[i]))
    ensures IsChild(spans, j, i)
  {
    FailingAt(spans, failed, i);
    FailingAt(spans, failed, j);
  }

  /** A chain of failed spans, each the parent of the next. */
  predicate IsChain(spans: seq<Span>, failed: set<nat>, chain: seq<nat>) {
    && chain != [] && (forall k :: 0 <= k < |chain| ==> chain[k] in failed && chain[k] < |spans|)
    && forall k :: 0 <= k < |chain| - 1 ==> IsChild(spans, chain[k + 1], chain[k])
  }

  /** Following failed children, a position comes back before the run is used up: that closes a ring. */
  lemma {:induction false} FollowChildren(spans: seq<Span>, failed: set<nat>, chain: seq<nat>) returns (ring: seq<nat>)
    requires IsChain(spans, failed, chain) && Distinct(chain) && !HasCause(Failing(spans, failed))
    ensures IsRing(spans, ring)
    decreases |spans| - |chain|
  {
    hide HasCause, IsChild, Failing;
    DistinctFit(chain, |spans|);
    var last := chain[|chain| - 1];
    var child := FailedChild(spans, failed, last);
    ChildInside(spans, child, last);
    if child in chain {
      var k :| 0 <= k < |chain| && chain[k] == child;
      ring := chain[k..];
      ChainCloses(spans, failed, chain, k);
    } else {
      var longer := chain + [child];
      StaysDistinct(chain, child);
      DistinctFit(longer, |spans|);
      ring := FollowChildren(spans, failed, longer);
    }
  }

  lemma ChildInside(spans: seq<Span>, j: nat, i: nat)
    requires IsChild(spans, j, i)
    ensures j < |spans| && i < |spans|
  {
  }

  lemma ChainCloses(spans: seq<Span>, failed: set<nat>, chain: seq<nat>, k: nat)
    requires IsChain(spans, failed, chain) && k < |chain| && IsChild(spans, chain[k], chain[|chain| - 1])
    ensures IsRing(spans, chain[k..])
  {
    hide IsChild;
    var ring := chain[k..];
    forall m | 0 <= m < |ring|
      ensures IsChild(spans, ring[After(ring, m)], ring[m])
    {
      assert ring[m] == chain[k + m];
      assert m + 1 < |ring| ==> ring[m + 1] == chain[k + m + 1];
    }
  }

  lemma StaysDistinct(walk: seq<nat>, more: nat)
    requires Distinct(walk) && more !in walk
    ensures Distinct(walk + [more])
  {
    assert forall j :: 0 <= j < |walk| ==> walk[j] in walk;
  }

  /** No more different positions than there are. */
  lemma {:induction false} DistinctFit(walk: seq<nat>, n: nat)
    requires Distinct(walk) && forall k :: 0 <= k < |walk| ==> walk[k] < n
    ensures |walk| <= n
    decreases n
  {
    if walk != [] {
      assert walk[0] < n;
      if n - 1 in walk {
        var at :| 0 <= at < |walk| && walk[at] == n - 1;
        var rest := walk[..at] + walk[at + 1..];
        assert forall k :: 0 <= k < |rest| ==> rest[k] == walk[if k < at then k else k + 1];
        DistinctFit(rest, n - 1);
      } else {
        assert forall k :: 0 <= k < |walk| ==> walk[k] in walk;
        DistinctFit(walk, n - 1);
      }
    }
  }

  /** Where the ring's spans failed and no other, each has a failed child. */
  lemma RingHasNoCause(spans: seq<Span>, ring: seq<nat>) returns (failed: set<nat>)
    requires IsRing(spans, ring)
    ensures Choice(spans, failed) && !HasCause(Failing(spans, failed))
  {
    failed := set k | 0 <= k < |ring| :: ring[k];
    assert ring[0] in failed;
    hide IsError, Failing, IsChild;
    var run := Failing(spans, failed);
    forall i | i in failed
      ensures i < |spans|
    {
      var k :| 0 <= k < |ring| && ring[k] == i;
      ChildInside(spans, ring[After(ring, k)], ring[k]);
    }
    FailingAt(spans, failed, ring[0]);
    forall span | span in run
      ensures !LeafError(run, span)
    {
      var i :| 0 <= i < |run| && run[i] == span;
      FailingAt(spans, failed, i);
      if i in failed {
        var k :| 0 <= k < |ring| && ring[k] == i;
        var j := ring[After(ring, k)];
        assert IsChild(spans, j, i) && j in failed;
        NotALeaf(spans, failed, i, j);
      }
    }
  }

  lemma NotALeaf(spans: seq<Span>, failed: set<nat>, i: nat, j: nat)
    requires IsChild(spans, j, i) && j in failed
    ensures !LeafError(Failing(spans, failed), Failing(spans, failed)[i])
  {
    hide IsError, Failing;
    FailingAt(spans, failed, i);
    FailingAt(spans, failed, j);
    assert Failing(spans, failed)[j] in Failing(spans, failed);
  }

  /** A run has a cause whichever of its spans failed exactly when its parent links form no ring. */
  lemma CauseIsCertain(spans: seq<Span>)
    ensures (forall failed: set<nat> :: Choice(spans, failed) ==> HasCause(Failing(spans, failed)))
            <==> forall ring: seq<nat> :: !IsRing(spans, ring)
  {
    hide HasCause, Failing, IsRing;
    if ring: seq<nat> :| IsRing(spans, ring) {
      var failed := RingHasNoCause(spans, ring);
    } else {
      forall failed: set<nat> | Choice(spans, failed)
        ensures HasCause(Failing(spans, failed))
      {
        var i :| i in failed;
        if !HasCause(Failing(spans, failed)) {
          var ring := FollowChildren(spans, failed, [i]);
        }
      }
    }
  }

  /** A run is the one that its own failed spans choose: what else a status says does not matter. */
  lemma OwnChoice(spans: seq<Span>)
    ensures var failed := set i | 0 <= i < |spans| && IsError(spans[i]);
            HasCause(spans) <==> HasCause(Failing(spans, failed))
  {
    var failed := set i | 0 <= i < |spans| && IsError(spans[i]);
    forall i | 0 <= i < |spans|
      ensures Agree(spans[i], Failing(spans, failed)[i])
    {
      FailingAt(spans, failed, i);
    }
    SameCauses(spans, Failing(spans, failed));
    SameCauses(Failing(spans, failed), spans);
  }

  predicate Agree(one: Span, other: Span) {
    (IsError(one) <==> IsError(other)) && ParentOf(one) == ParentOf(other) && NodeOf(one) == NodeOf(other)
  }

  lemma SameCauses(one: seq<Span>, other: seq<Span>)
    requires |one| == |other| && forall i :: 0 <= i < |one| ==> Agree(one[i], other[i])
    ensures HasCause(one) ==> HasCause(other)
  {
    hide IsError;
    if HasCause(one) {
      var span :| span in one && LeafError(one, span);
      var i :| 0 <= i < |one| && one[i] == span;
      forall child | child in other && IsError(child)
        ensures ParentOf(child) != Some(NodeOf(other[i]))
      {
        var j :| 0 <= j < |other| && other[j] == child;
        assert one[j] in one && Agree(one[j], other[j]);
      }
      assert Agree(one[i], other[i]);
      assert other[i] in other && LeafError(other, other[i]);
    }
  }

  // ---------------------------------------------------------------- repetition among ancestors

  const MAX_ANCESTOR_WALK: nat := 64

  /** Where a node's span is: the last of its name. */
  function PositionOf(spans: seq<Span>, node: Node): (r: Option<nat>)
    ensures r.Some? ==> r.value < |spans|
  {
    if spans == [] then None
    else if NodeOf(spans[|spans| - 1]) == node then Some(|spans| - 1)
    else PositionOf(spans[..|spans| - 1], node)
  }

  function ParentAt(spans: seq<Span>, at: nat): (r: Option<nat>)
    requires at < |spans|
    ensures r.Some? ==> r.value < |spans|
  {
    if ParentOf(spans[at]).Some? then PositionOf(spans, ParentOf(spans[at]).value) else None
  }

  /** The ancestors met in so many steps, in order; the walk stops at a root, at a missing parent or where
      it has been. */
  function Walk(spans: seq<Span>, at: nat, steps: nat): (r: seq<nat>)
    requires at < |spans|
    ensures |r| <= steps && forall k :: 0 <= k < |r| ==> r[k] < |spans|
  {
    if steps == 0 then []
    else
      var before := Walk(spans, at, steps - 1);
      if |before| < steps - 1 then before
      else
        match ParentAt(spans, if before == [] then at else before[|before| - 1])
        case None => before
        case Some(parent) => if parent in before then before else before + [parent]
  }

  predicate SameStep(spans: seq<Span>, i: nat, j: nat)
    requires i < |spans| && j < |spans|
  {
    spans[i].service == spans[j].service && spans[i].name == spans[j].name
  }

  function CountSame(spans: seq<Span>, at: nat, ancestors: seq<nat>): nat
    requires at < |spans| && forall k :: 0 <= k < |ancestors| ==> ancestors[k] < |spans|
  {
    if ancestors == [] then 0
    else
      var n := |ancestors| - 1;
      CountSame(spans, at, ancestors[..n]) + if SameStep(spans, ancestors[n], at) then 1 else 0
  }

  /** How deep every span is among ancestors of its own service and name. */
  method SelfDepths(spans: seq<Span>) returns (depths: seq<nat>)
    ensures |depths| == |spans|
    ensures forall i :: 0 <= i < |spans| ==> depths[i] == CountSame(spans, i, Walk(spans, i, MAX_ANCESTOR_WALK))
    ensures forall i :: 0 <= i < |spans| ==> depths[i] == |Repeated(spans, i, Walk(spans, i, 64))|
  {
    var index := IndexNodes(spans);
    hide Walk, CountSame;
    depths := [];
    for i := 0 to |spans|
      invariant |depths| == i
      invariant forall k :: 0 <= k < i ==> depths[k] == CountSame(spans, k, Walk(spans, k, MAX_ANCESTOR_WALK))
    {
      var depth := SelfDepth(spans, index, i);
      depths := depths + [depth];
    }
    forall i | 0 <= i < |spans|
      ensures depths[i] == |Repeated(spans, i, Walk(spans, i, 64))|
    {
      WalkIsTheChain(spans, i, 64);
      CountIsRepeated(spans, i, Walk(spans, i, 64));
    }
  }

  /** Those of the spans met that have the service and the name of the one at `at`. */
  function Repeated(spans: seq<Span>, at: nat, met: seq<nat>): set<nat>
    requires at < |spans| && forall k :: 0 <= k < |met| ==> met[k] < |spans|
  {
    set p | p in met && spans[p].name == spans[at].name && spans[p].service == spans[at].service
  }

  lemma {:induction false} CountIsRepeated(spans: seq<Span>, at: nat, met: seq<nat>)
    requires at < |spans| && Distinct(met) && forall k :: 0 <= k < |met| ==> met[k] < |spans|
    ensures CountSame(spans, at, met) == |Repeated(spans, at, met)|
  {
    if met == [] {
      assert Repeated(spans, at, met) == {};
    } else {
      var front, last := met[..|met| - 1], met[|met| - 1];
      CountIsRepeated(spans, at, front);
      assert forall p :: p in met <==> p in front || p == last;
      assert Repeated(spans, at, met)
          == Repeated(spans, at, front) + if SameStep(spans, last, at) then {last} else {};
      assert last !in Repeated(spans, at, front);
    }
  }

  method IndexNodes(spans: seq<Span>) returns (index: map<Node, nat>)
    ensures forall node :: PositionOf(spans, node) == if node in index then Some(index[node]) else None
  {
    index := map[];
    for i := 0 to |spans|
      invariant forall node :: PositionOf(spans[..i], node) == if node in index then Some(index[node]) else None
    {
      assert spans[..i + 1][..i] == spans[..i];
      index := index[NodeOf(spans[i]) := i];
    }
    assert spans[..|spans|] == spans;
  }

  method SelfDepth(spans: seq<Span>, index: map<Node, nat>, at: nat) returns (depth: nat)
    requires at < |spans|
    requires forall node :: PositionOf(spans, node) == if node in index then Some(index[node]) else None
    ensures depth == CountSame(spans, at, Walk(spans, at, MAX_ANCESTOR_WALK))
  {
    var seen: set<nat> := {};
    var current := at;
    ghost var walked: seq<nat> := [];
    depth := 0;
    WalkNone(spans, at);
    hide Walk, CountSame, PositionOf, SameStep, ParentAt;
    for step := 0 to MAX_ANCESTOR_WALK
      invariant walked == Walk(spans, at, step) && |walked| == step && depth == CountSame(spans, at, walked)
      invariant current < |spans| && current == Latest(at, walked)
      invariant forall p :: p in seen <==> p in walked
    {
      ParentIsIndexed(spans, index, current);
      var parent := ParentOf(spans[current]);
      if parent.None? || parent.value !in index || index[parent.value] in seen {
        WalkStops(spans, at, walked, MAX_ANCESTOR_WALK);
        return;
      }
      current := index[parent.value];
      seen := seen + {current};
      WalkGoesOn(spans, at, walked, current);
      walked := walked + [current];
      if SameStep(spans, current, at) {
        depth := depth + 1;
      }
    }
  }

  function Latest(at: nat, walked: seq<nat>): nat { if walked == [] then at else walked[|walked| - 1] }

  lemma ParentIsIndexed(spans: seq<Span>, index: map<Node, nat>, at: nat)
    requires at < |spans|
    requires forall node :: PositionOf(spans, node) == if node in index then Some(index[node]) else None
    ensures var parent := ParentOf(spans[at]);
            ParentAt(spans, at)
            == if parent.Some? && parent.value in index then Some(index[parent.value]) else None
  {
  }

  lemma WalkStops(spans: seq<Span>, at: nat, walked: seq<nat>, more: nat)
    requires at < |spans| && walked == Walk(spans, at, |walked|) && |walked| <= more
    requires Latest(at, walked) < |spans|
    requires var parent := ParentAt(spans, Latest(at, walked)); parent.None? || parent.value in walked
    ensures Walk(spans, at, more) == walked
  {
    WalkNext(spans, at, |walked|);
    hide Walk;
    Stopped(spans, at, |walked|, more);
  }

  lemma WalkGoesOn(spans: seq<Span>, at: nat, walked: seq<nat>, parent: nat)
    requires at < |spans| && walked == Walk(spans, at, |walked|) && parent !in walked
    requires Latest(at, walked) < |spans| && ParentAt(spans, Latest(at, walked)) == Some(parent)
    ensures parent < |spans| && Walk(spans, at, |walked| + 1) == walked + [parent]
    ensures CountSame(spans, at, walked + [parent])
            == CountSame(spans, at, walked) + if SameStep(spans, parent, at) then 1 else 0
  {
    WalkNext(spans, at, |walked|);
    hide Walk, CountSame;
    OneMoreAncestor(spans, at, walked, parent);
  }

  lemma WalkNone(spans: seq<Span>, at: nat)
    requires at < |spans|
    ensures Walk(spans, at, 0) == [] && CountSame(spans, at, []) == 0
  {
  }

  lemma WalkNext(spans: seq<Span>, at: nat, steps: nat)
    requires at < |spans|
    ensures var before := Walk(spans, at, steps);
            && Latest(at, before) < |spans|
            && var parent := ParentAt(spans, Latest(at, before));
               Walk(spans, at, steps + 1) == if |before| < steps || parent.None? || parent.value in before then before
                                             else before + [parent.value]
  {
  }

  lemma OneMoreAncestor(spans: seq<Span>, at: nat, walked: seq<nat>, parent: nat)
    requires at < |spans| && parent < |spans| && forall k :: 0 <= k < |walked| ==> walked[k] < |spans|
    ensures CountSame(spans, at, walked + [parent])
            == CountSame(spans, at, walked) + if SameStep(spans, parent, at) then 1 else 0
  {
    assert (walked + [parent])[..|walked|] == walked;
  }

  lemma {:induction false} Stopped(spans: seq<Span>, at: nat, steps: nat, more: nat)
    requires at < |spans| && steps <= more && |Walk(spans, at, steps + 1)| <= steps
    ensures more > steps ==> Walk(spans, at, more) == Walk(spans, at, steps + 1)
  {
    if more > steps + 1 {
      Stopped(spans, at, steps, more - 1);
    }
  }

  /** The parent's parent's ... parent. */
  function Nth(spans: seq<Span>, at: nat, n: nat): (r: Option<nat>)
    requires at < |spans|
    ensures r.Some? ==> r.value < |spans|
  {
    if n == 0 then Some(at)
    else
      match Nth(spans, at, n - 1)
      case None => None
      case Some(parent) => ParentAt(spans, parent)
  }

  predicate IsAncestor(spans: seq<Span>, at: nat, ancestor: nat, n: nat)
    requires at < |spans|
  {
    n > 0 && Nth(spans, at, n) == Some(ancestor)
  }

  /** The walk is the chain of parents, no span twice. */
  lemma {:induction false} WalkIsTheChain(spans: seq<Span>, at: nat, steps: nat)
    requires at < |spans|
    ensures Chains(spans, at, Walk(spans, at, steps)) && Distinct(Walk(spans, at, steps))
  {
    WalkNone(spans, at);
    if steps > 0 {
      WalkIsTheChain(spans, at, steps - 1);
      WalkNext(spans, at, steps - 1);
      hide Walk, Nth, ParentAt;
      var before := Walk(spans, at, steps - 1);
      if Walk(spans, at, steps) != before {
        ChainsOn(spans, at, before);
        hide Chains;
        StaysDistinct(before, ParentAt(spans, Latest(at, before)).value);
      }
    }
  }

  predicate Chains(spans: seq<Span>, at: nat, walk: seq<nat>)
    requires at < |spans|
  {
    forall k :: 0 <= k < |walk| ==> Nth(spans, at, k + 1) == Some(walk[k])
  }

  lemma ChainsOn(spans: seq<Span>, at: nat, walk: seq<nat>)
    requires at < |spans| && Chains(spans, at, walk) && Latest(at, walk) < |spans|
    ensures var parent := ParentAt(spans, Latest(at, walk)); parent.Some? ==> Chains(spans, at, walk + [parent.value])
  {
    assert Nth(spans, at, |walk|) == Some(Latest(at, walk)) by {
      assert walk != [] ==> Nth(spans, at, |walk| - 1 + 1) == Some(walk[|walk| - 1]);
    }
  }

  /** A walk that stopped of itself has met every ancestor. */
  lemma {:induction false} StoppedWalkIsComplete(spans: seq<Span>, at: nat, steps: nat, ancestor: nat, n: nat)
    requires at < |spans| && |Walk(spans, at, steps)| < steps && IsAncestor(spans, at, ancestor, n)
    ensures ancestor in Walk(spans, at, steps)
    decreases n
  {
    var walk := Walk(spans, at, steps);
    WalkIsTheChain(spans, at, steps);
    StoppedIsClosed(spans, at, steps);
    if n > 1 {
      var before := Nth(spans, at, n - 1).value;
      StoppedWalkIsComplete(spans, at, steps, before, n - 1);
      var k :| 0 <= k < |walk| && walk[k] == before;
      if k + 1 < |walk| {
        assert Nth(spans, at, k + 2) == Some(walk[k + 1]);
      }
    } else {
      assert Nth(spans, at, 0) == Some(at) && Nth(spans, at, 1) == ParentAt(spans, at);
      assert walk != [] ==> Nth(spans, at, 0 + 1) == Some(walk[0]);
    }
  }

  /** Where a walk stops, the last span's parent is missing or among those met. */
  lemma {:induction false} StoppedIsClosed(spans: seq<Span>, at: nat, steps: nat)
    requires at < |spans| && |Walk(spans, at, steps)| < steps
    ensures var walk := Walk(spans, at, steps);
            var parent := ParentAt(spans, if walk == [] then at else walk[|walk| - 1]);
            parent.Some? ==> parent.value in walk
  {
    var before := Walk(spans, at, steps - 1);
    if |before| < steps - 1 {
      StoppedIsClosed(spans, at, steps - 1);
    }
  }

  /** All the ancestors there are, nearest first: a walk with more steps than the run has spans stops of itself. */
  function Ancestors(spans: seq<Span>, at: nat): (r: seq<nat>)
    requires at < |spans|
    ensures forall k :: 0 <= k < |r| ==> r[k] < |spans|
  {
    Walk(spans, at, |spans| + 1)
  }

  lemma AncestorsAreAll(spans: seq<Span>, at: nat)
    requires at < |spans|
    ensures Distinct(Ancestors(spans, at)) && |Ancestors(spans, at)| <= |spans|
    ensures forall p: nat :: p in Ancestors(spans, at) <==> exists n: nat :: IsAncestor(spans, at, p, n)
  {
    hide Walk, Nth;
    var all := Ancestors(spans, at);
    WalkIsTheChain(spans, at, |spans| + 1);
    DistinctFit(all, |spans|);
    forall p: nat
      ensures p in all <==> exists n: nat :: IsAncestor(spans, at, p, n)
    {
      if p in all {
        var k :| 0 <= k < |all| && all[k] == p;
        assert IsAncestor(spans, at, p, k + 1);
      }
      if n: nat :| IsAncestor(spans, at, p, n) {
        StoppedWalkIsComplete(spans, at, |spans| + 1, p, n);
      }
    }
  }

  /** A walk of fewer steps is the beginning of one of more. */
  lemma {:induction false} WalkBegins(spans: seq<Span>, at: nat, steps: nat, more: nat)
    requires at < |spans| && steps <= more
    ensures var longer := Walk(spans, at, more); Walk(spans, at, steps) == longer[..Min(steps, |longer|)]
    decreases more
  {
    hide Walk, ParentAt, Latest;
    if steps < more {
      WalkBegins(spans, at, steps, more - 1);
      WalkNext(spans, at, more - 1);
    } else {
      var whole := Walk(spans, at, more);
      assert whole[..|whole|] == whole;
    }
  }

  lemma {:induction false} CountsTheSame(spans: seq<Span>, at: nat, ancestors: seq<nat>, n: nat)
    requires at < |spans| && n <= |ancestors| && forall k :: 0 <= k < |ancestors| ==> ancestors[k] < |spans|
    ensures CountSame(spans, at, ancestors[..n]) <= CountSame(spans, at, ancestors)
    ensures CountSame(spans, at, ancestors[..n]) == CountSame(spans, at, ancestors)
            <==> forall k :: n <= k < |ancestors| ==> !SameStep(spans, ancestors[k], at)
  {
    hide SameStep;
    if n == |ancestors| {
      assert ancestors[..n] == ancestors;
    } else {
      var front := ancestors[..|ancestors| - 1];
      CountsTheSame(spans, at, front, n);
      assert front[..n] == ancestors[..n];
    }
  }

  /** A self-depth counts every ancestor of its service and name exactly when none of them is past the 64th. */
  lemma SelfDepthIsWhole(spans: seq<Span>, at: nat)
    requires at < |spans|
    ensures var all := Ancestors(spans, at);
            CountSame(spans, at, Walk(spans, at, MAX_ANCESTOR_WALK)) == CountSame(spans, at, all)
            <==> forall k :: MAX_ANCESTOR_WALK <= k < |all| ==> !SameStep(spans, all[k], at)
  {
    CappedWalk(spans, at);
    hide Walk, CountSame, SameStep, Ancestors;
    CountsTheSame(spans, at, Ancestors(spans, at), Min(MAX_ANCESTOR_WALK, |Ancestors(spans, at)|));
  }

  lemma CappedWalk(spans: seq<Span>, at: nat)
    requires at < |spans|
    ensures var all := Ancestors(spans, at);
            Walk(spans, at, MAX_ANCESTOR_WALK) == all[..Min(MAX_ANCESTOR_WALK, |all|)]
  {
    if MAX_ANCESTOR_WALK <= |spans| + 1 {
      WalkBegins(spans, at, MAX_ANCESTOR_WALK, |spans| + 1);
    } else {
      AncestorsAreAll(spans, at);
      Stopped(spans, at, |spans|, MAX_ANCESTOR_WALK);
    }
  }
}

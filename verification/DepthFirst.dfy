/** The depth-first order of a trace's spans (`depth_first_order` of `src/mcp.rs`): an explicit stack over parent links
    that may form cycles, proved to give the preorder of the forest of rooted spans and to count exactly the others. */
module DepthFirst {
  import opened Common
  import opened CanonicalJson

  datatype Span = Span(spanId: string, parentId: Option<string>, start: U64)

  type Spans = seq<Span>

  // ---------------------------------------------------------------- parents

  /** The last position that carries an id. */
  function IndexOf(spans: Spans, id: string, n: nat): Option<nat>
    requires n <= |spans|
  {
    if n == 0 then None else if spans[n - 1].spanId == id then Some(n - 1) else IndexOf(spans, id, n - 1)
  }

  /** A span's parent: a span of the trace other than itself. Without one it is a root here. */
  function Parent(spans: Spans, position: nat): Option<nat>
    requires position < |spans|
  {
    var named := spans[position].parentId;
    if named.None? || named.value == [] then None
    else
      var found := IndexOf(spans, named.value, |spans|);
      if found.Some? && found.value != position then found else None
  }

  lemma {:induction false} IndexInside(spans: Spans, id: string, n: nat)
    requires n <= |spans|
    ensures IndexOf(spans, id, n).Some? ==> IndexOf(spans, id, n).value < n
  {
    if n > 0 {
      IndexInside(spans, id, n - 1);
    }
  }

  lemma ParentInside(spans: Spans, position: nat)
    requires position < |spans|
    ensures Parent(spans, position).Some? ==> Parent(spans, position).value < |spans|
  {
    if spans[position].parentId.Some? {
      IndexInside(spans, spans[position].parentId.value, |spans|);
    }
  }

  /** The ancestor so many links up. */
  ghost function Ancestor(spans: Spans, position: nat, up: nat): Option<nat>
    requires position < |spans|
    ensures Ancestor(spans, position, up).Some? ==> Ancestor(spans, position, up).value < |spans|
  {
    if up == 0 then Some(position)
    else
      var below := Ancestor(spans, position, up - 1);
      if below.None? then None
      else
        ParentInside(spans, below.value);
        Parent(spans, below.value)
  }

  /** The span is so many links below a root. */
  ghost predicate AtDepth(spans: Spans, position: nat, depth: nat) {
    position < |spans| && Ancestor(spans, position, depth).Some?
    && Parent(spans, Ancestor(spans, position, depth).value).None?
  }

  /** Some chain of parents leads from the span to a root; otherwise they lead into a cycle. */
  ghost predicate Rooted(spans: Spans, position: nat) {
    exists depth: nat :: AtDepth(spans, position, depth)
  }

  lemma {:induction false} AncestorsEnd(spans: Spans, position: nat, depth: nat, up: nat)
    requires AtDepth(spans, position, depth) && up > depth
    ensures Ancestor(spans, position, up).None?
    decreases up
  {
    if up - 1 > depth {
      AncestorsEnd(spans, position, depth, up - 1);
    }
  }

  lemma DepthIsOne(spans: Spans, position: nat, one: nat, other: nat)
    requires AtDepth(spans, position, one) && AtDepth(spans, position, other)
    ensures one == other
  {
    if one < other {
      AncestorsEnd(spans, position, one, other);
    } else if other < one {
      AncestorsEnd(spans, position, other, one);
    }
  }

  /** Climbing in two goes. */
  lemma {:induction false} AncestorSum(spans: Spans, position: nat, near: nat, far: nat)
    requires position < |spans| && Ancestor(spans, position, near).Some?
    ensures Ancestor(spans, position, near + far) == Ancestor(spans, Ancestor(spans, position, near).value, far)
    decreases far
  {
    if far > 0 {
      AncestorSum(spans, position, near, far - 1);
    }
  }

  lemma DepthBelow(spans: Spans, position: nat, up: nat, depth: nat)
    requires position < |spans| && Ancestor(spans, position, up).Some?
    requires AtDepth(spans, Ancestor(spans, position, up).value, depth)
    ensures AtDepth(spans, position, up + depth)
  {
    AncestorSum(spans, position, up, depth);
  }

  /** The depths of the rooted spans are bounded. */
  lemma {:induction false} DepthBound(spans: Spans, n: nat) returns (bound: nat)
    requires n <= |spans|
    ensures forall p: nat, d: nat :: p < n && AtDepth(spans, p, d) ==> d <= bound
  {
    if n == 0 {
      return 0;
    }
    var last := n - 1;
    bound := DepthBound(spans, last);
    if d: nat :| AtDepth(spans, last, d) {
      forall e: nat | AtDepth(spans, last, e)
        ensures e == d
      {
        DepthIsOne(spans, last, d, e);
      }
      bound := Max(bound, d);
    }
  }

  // ---------------------------------------------------------------- siblings in start order

  /** Earlier start first, then smaller id, then place in the trace: the sort is stable. */
  predicate Earlier(spans: Spans, a: nat, b: nat)
    requires a < |spans| && b < |spans|
  {
    || spans[a].start < spans[b].start
    || (spans[a].start == spans[b].start && Less(spans[a].spanId, spans[b].spanId))
    || (spans[a].start == spans[b].start && spans[a].spanId == spans[b].spanId && a < b)
  }

  lemma EarlierTotal(spans: Spans, a: nat, b: nat)
    requires a < |spans| && b < |spans|
    ensures a == b || Earlier(spans, a, b) || Earlier(spans, b, a)
    ensures !(Earlier(spans, a, b) && Earlier(spans, b, a)) && !Earlier(spans, a, a)
  {
    LessTotal(spans[a].spanId, spans[b].spanId);
    LessTotal(spans[a].spanId, spans[a].spanId);
  }

  lemma EarlierTransitive(spans: Spans, a: nat, b: nat, c: nat)
    requires a < |spans| && b < |spans| && c < |spans| && Earlier(spans, a, b) && Earlier(spans, b, c)
    ensures Earlier(spans, a, c)
  {
    if spans[a].start == spans[b].start == spans[c].start {
      if Less(spans[a].spanId, spans[b].spanId) && Less(spans[b].spanId, spans[c].spanId) {
        LessTransitive(spans[a].spanId, spans[b].spanId, spans[c].spanId);
      }
    }
  }

  predicate Inside(spans: Spans, positions: seq<nat>) {
    forall i :: 0 <= i < |positions| ==> positions[i] < |spans|
  }

  predicate InStartOrder(spans: Spans, positions: seq<nat>) {
    && Inside(spans, positions)
    && forall i, j :: 0 <= i < j < |positions| ==> Earlier(spans, positions[i], positions[j])
  }

  function Insert(spans: Spans, position: nat, sorted: seq<nat>): (r: seq<nat>)
    requires position < |spans| && Inside(spans, sorted)
    ensures Inside(spans, r)
    ensures forall x: nat :: x in r <==> x == position || x in sorted
  {
    if sorted == [] || Earlier(spans, position, sorted[0]) then [position] + sorted
    else
      assert sorted == [sorted[0]] + sorted[1..];
      [sorted[0]] + Insert(spans, position, sorted[1..])
  }

  function ByStart(spans: Spans, positions: seq<nat>): (r: seq<nat>)
    requires Inside(spans, positions)
    ensures Inside(spans, r)
    ensures forall x: nat :: x in r <==> x in positions
  {
    if positions == [] then []
    else
      assert positions == positions[..|positions| - 1] + [positions[|positions| - 1]];
      Insert(spans, positions[|positions| - 1], ByStart(spans, positions[..|positions| - 1]))
  }

  lemma {:induction false} InsertOrders(spans: Spans, position: nat, sorted: seq<nat>)
    requires position < |spans| && InStartOrder(spans, sorted) && position !in sorted
    ensures InStartOrder(spans, Insert(spans, position, sorted))
  {
    if sorted == [] {
    } else if Earlier(spans, position, sorted[0]) {
      forall j | 0 <= j < |sorted|
        ensures Earlier(spans, position, sorted[j])
      {
        if j > 0 {
          EarlierTransitive(spans, position, sorted[0], sorted[j]);
        }
      }
    } else {
      EarlierTotal(spans, position, sorted[0]);
      var rest := Insert(spans, position, sorted[1..]);
      InsertOrders(spans, position, sorted[1..]);
      forall j | 0 <= j < |rest|
        ensures Earlier(spans, sorted[0], rest[j])
      {
        assert rest[j] in rest;
      }
    }
  }

  predicate Distinct(positions: seq<nat>) {
    forall i, j :: 0 <= i < j < |positions| ==> positions[i] != positions[j]
  }

  lemma {:induction false} SortsByStart(spans: Spans, positions: seq<nat>)
    requires Inside(spans, positions) && Distinct(positions)
    ensures InStartOrder(spans, ByStart(spans, positions))
  {
    if positions != [] {
      var n := |positions| - 1;
      SortsByStart(spans, positions[..n]);
      InsertOrders(spans, positions[n], ByStart(spans, positions[..n]));
    }
  }

  lemma OrderedAreDistinct(spans: Spans, positions: seq<nat>)
    requires InStartOrder(spans, positions)
    ensures Distinct(positions)
  {
    forall i, j | 0 <= i < j < |positions|
      ensures positions[i] != positions[j]
    {
      EarlierTotal(spans, positions[i], positions[j]);
    }
  }

  // ---------------------------------------------------------------- the forest

  /** The positions below `n` under this parent, in the order of the trace. */
  function Under(spans: Spans, parent: Option<nat>, n: nat): (r: seq<nat>)
    requires n <= |spans|
    ensures Inside(spans, r)
    ensures forall x: nat :: x in r <==> x < n && Parent(spans, x) == parent
  {
    if n == 0 then []
    else if Parent(spans, n - 1) == parent then Under(spans, parent, n - 1) + [n - 1]
    else Under(spans, parent, n - 1)
  }

  lemma {:induction false} UnderDistinct(spans: Spans, parent: Option<nat>, n: nat)
    requires n <= |spans|
    ensures Distinct(Under(spans, parent, n))
  {
    if n > 0 {
      UnderDistinct(spans, parent, n - 1);
      var front := Under(spans, parent, n - 1);
      assert forall i :: 0 <= i < |front| ==> front[i] in front;
    }
  }

  /** The children of a span, or with no parent named the roots, in start order. */
  function Children(spans: Spans, parent: Option<nat>): (r: seq<nat>)
    ensures Inside(spans, r)
    ensures forall x: nat :: x in r <==> x < |spans| && Parent(spans, x) == parent
  {
    ByStart(spans, Under(spans, parent, |spans|))
  }

  lemma ChildrenOrdered(spans: Spans, parent: Option<nat>)
    ensures InStartOrder(spans, Children(spans, parent)) && Distinct(Children(spans, parent))
  {
    UnderDistinct(spans, parent, |spans|);
    SortsByStart(spans, Under(spans, parent, |spans|));
    OrderedAreDistinct(spans, Children(spans, parent));
  }

  datatype Row = Row(depth: nat, position: nat)

  /** The reference: a span, then the subtrees of its children in start order, each contiguous, one level down. `room`
      is how many levels there may be. */
  function Subtree(spans: Spans, position: nat, depth: nat, room: nat): seq<Row>
    requires position < |spans|
    decreases room, 0
  {
    if room == 0 then []
    else [Row(depth, position)] + Forest(spans, Children(spans, Some(position)), depth + 1, room - 1)
  }

  function Forest(spans: Spans, positions: seq<nat>, depth: nat, room: nat): seq<Row>
    requires Inside(spans, positions)
    decreases room, 1, |positions|
  {
    if positions == [] then []
    else Subtree(spans, positions[0], depth, room) + Forest(spans, positions[1..], depth, room)
  }

  lemma SubtreeIs(spans: Spans, position: nat, depth: nat, room: nat)
    requires position < |spans| && room > 0
    ensures Subtree(spans, position, depth, room)
            == [Row(depth, position)] + Forest(spans, Children(spans, Some(position)), depth + 1, room - 1)
  {
    hide Children, Forest;
  }

  lemma ForestIs(spans: Spans, positions: seq<nat>, depth: nat, room: nat)
    requires Inside(spans, positions)
    ensures positions == [] ==> Forest(spans, positions, depth, room) == []
    ensures positions != [] ==>
              Forest(spans, positions, depth, room)
              == Subtree(spans, positions[0], depth, room) + Forest(spans, positions[1..], depth, room)
  {
    hide Subtree;
  }

  ghost predicate AllAtDepth(spans: Spans, positions: seq<nat>, depth: nat) {
    forall i :: 0 <= i < |positions| ==> AtDepth(spans, positions[i], depth)
  }

  lemma ChildrenDepth(spans: Spans, position: nat, depth: nat)
    requires AtDepth(spans, position, depth)
    ensures AllAtDepth(spans, Children(spans, Some(position)), depth + 1)
  {
    var children := Children(spans, Some(position));
    hide Children;
    forall i | 0 <= i < |children|
      ensures AtDepth(spans, children[i], depth + 1)
    {
      assert children[i] in children;
      assert Ancestor(spans, children[i], 1) == Some(position);
      DepthBelow(spans, children[i], 1, depth);
    }
  }

  lemma RootsDepth(spans: Spans)
    ensures AllAtDepth(spans, Children(spans, None), 0)
  {
    var roots := Children(spans, None);
    hide Children;
    forall i | 0 <= i < |roots|
      ensures AtDepth(spans, roots[i], 0)
    {
      assert roots[i] in roots;
    }
  }

  /** A row of a subtree: a span at its depth, that many levels under the top. */
  ghost predicate RowUnder(spans: Spans, row: Row, top: nat, depth: nat) {
    && AtDepth(spans, row.position, row.depth) && row.depth >= depth
    && Ancestor(spans, row.position, row.depth - depth) == Some(top)
  }

  ghost predicate RowUnderOne(spans: Spans, row: Row, tops: seq<nat>, depth: nat) {
    exists k :: 0 <= k < |tops| && RowUnder(spans, row, tops[k], depth)
  }

  lemma {:induction false} SubtreeRows(spans: Spans, position: nat, depth: nat, room: nat)
    requires AtDepth(spans, position, depth)
    ensures forall i :: 0 <= i < |Subtree(spans, position, depth, room)| ==>
              RowUnder(spans, Subtree(spans, position, depth, room)[i], position, depth)
    decreases room, 0
  {
    if room > 0 {
      var children := Children(spans, Some(position));
      ChildrenDepth(spans, position, depth);
      ForestRows(spans, children, depth + 1, room - 1);
      hide Children;
      var rows := Forest(spans, children, depth + 1, room - 1);
      forall i | 0 <= i < |rows|
        ensures RowUnder(spans, rows[i], position, depth)
      {
        var k :| 0 <= k < |children| && RowUnder(spans, rows[i], children[k], depth + 1);
        assert children[k] in children;
        assert Ancestor(spans, children[k], 1) == Some(position);
        AncestorSum(spans, rows[i].position, rows[i].depth - (depth + 1), 1);
      }
      assert RowUnder(spans, Row(depth, position), position, depth);
    }
  }

  lemma {:induction false} ForestRows(spans: Spans, positions: seq<nat>, depth: nat, room: nat)
    requires Inside(spans, positions) && AllAtDepth(spans, positions, depth)
    ensures forall i :: 0 <= i < |Forest(spans, positions, depth, room)| ==>
              RowUnderOne(spans, Forest(spans, positions, depth, room)[i], positions, depth)
    decreases room, 1, |positions|
  {
    hide RowUnder, Subtree;
    if positions != [] {
      var first, later := Subtree(spans, positions[0], depth, room), Forest(spans, positions[1..], depth, room);
      SubtreeRows(spans, positions[0], depth, room);
      ForestRows(spans, positions[1..], depth, room);
      forall i | 0 <= i < |first|
        ensures RowUnderOne(spans, first[i], positions, depth)
      {
      }
      forall i | 0 <= i < |later|
        ensures RowUnderOne(spans, later[i], positions, depth)
      {
        var k :| 0 <= k < |positions| - 1 && RowUnder(spans, later[i], positions[1..][k], depth);
        assert positions[1..][k] == positions[k + 1];
      }
    }
  }

  predicate Once(rows: seq<Row>) {
    forall i, j :: 0 <= i < j < |rows| ==> rows[i].position != rows[j].position
  }

  lemma OnceJoined(front: seq<Row>, back: seq<Row>)
    requires Once(front) && Once(back)
    requires forall i, j :: 0 <= i < |front| && 0 <= j < |back| ==> front[i].position != back[j].position
    ensures Once(front + back)
  {
  }

  /** Rows under different spans of one depth are different. */
  lemma UnderApart(spans: Spans, one: Row, other: Row, top: nat, otherTop: nat, depth: nat)
    requires RowUnder(spans, one, top, depth) && RowUnder(spans, other, otherTop, depth) && top != otherTop
    ensures one.position != other.position
  {
    if one.position == other.position {
      DepthIsOne(spans, one.position, one.depth, other.depth);
    }
  }

  lemma {:induction false} SubtreeOnce(spans: Spans, position: nat, depth: nat, room: nat)
    requires AtDepth(spans, position, depth)
    ensures Once(Subtree(spans, position, depth, room))
    decreases room, 0
  {
    if room > 0 {
      var children := Children(spans, Some(position));
      ChildrenDepth(spans, position, depth);
      ChildrenOrdered(spans, Some(position));
      ForestOnce(spans, children, depth + 1, room - 1);
      ForestRows(spans, children, depth + 1, room - 1);
      var rows := Forest(spans, children, depth + 1, room - 1);
      assert Subtree(spans, position, depth, room) == [Row(depth, position)] + rows;
      hide Children, Subtree, Forest, AtDepth, RowUnderOne;
      NoneIsTop(spans, rows, children, position, depth);
      OnceJoined([Row(depth, position)], rows);
    }
  }

  lemma NoneIsTop(spans: Spans, rows: seq<Row>, children: seq<nat>, position: nat, depth: nat)
    requires AtDepth(spans, position, depth)
    requires forall i :: 0 <= i < |rows| ==> RowUnderOne(spans, rows[i], children, depth + 1)
    ensures forall i :: 0 <= i < |rows| ==> rows[i].position != position
  {
    hide RowUnder, AtDepth;
    forall i | 0 <= i < |rows|
      ensures rows[i].position != position
    {
      var k :| 0 <= k < |children| && RowUnder(spans, rows[i], children[k], depth + 1);
      UnderIsDeep(spans, rows[i], children[k], depth + 1);
      if rows[i].position == position {
        DepthIsOne(spans, position, rows[i].depth, depth);
      }
    }
  }

  lemma {:induction false} ForestOnce(spans: Spans, positions: seq<nat>, depth: nat, room: nat)
    requires Inside(spans, positions) && AllAtDepth(spans, positions, depth) && Distinct(positions)
    ensures Once(Forest(spans, positions, depth, room))
    decreases room, 1, |positions|
  {
    hide RowUnder, Subtree, AtDepth;
    if positions != [] {
      var first, later := Subtree(spans, positions[0], depth, room), Forest(spans, positions[1..], depth, room);
      SubtreeOnce(spans, positions[0], depth, room);
      ForestOnce(spans, positions[1..], depth, room);
      SubtreeRows(spans, positions[0], depth, room);
      ForestRows(spans, positions[1..], depth, room);
      forall i, j | 0 <= i < |first| && 0 <= j < |later|
        ensures first[i].position != later[j].position
      {
        var k :| 0 <= k < |positions| - 1 && RowUnder(spans, later[j], positions[1..][k], depth);
        UnderApart(spans, first[i], later[j], positions[0], positions[1..][k], depth);
      }
      OnceJoined(first, later);
    }
  }

  /** Every span under another is in its subtree, given room. */
  lemma {:induction false} InSubtree(spans: Spans, position: nat, top: nat, depth: nat, down: nat, room: nat)
    requires position < |spans| && Ancestor(spans, position, down) == Some(top) && top < |spans| && down < room
    ensures Row(depth + down, position) in Subtree(spans, top, depth, room)
    decreases down
  {
    hide *;
    if down == 0 {
      TopInSubtree(spans, position, depth, room);
      OwnAncestor(spans, position);
    } else {
      var child := NextDown(spans, position, top, down);
      InSubtree(spans, position, child, depth + 1, down - 1, room - 1);
      assert depth + 1 + (down - 1) == depth + down;
      InChild(spans, child, top, depth, room, Row(depth + down, position));
    }
  }

  lemma OwnAncestor(spans: Spans, position: nat)
    requires position < |spans|
    ensures Ancestor(spans, position, 0) == Some(position)
  {
  }

  lemma NextDown(spans: Spans, position: nat, top: nat, down: nat) returns (child: nat)
    requires position < |spans| && down > 0 && Ancestor(spans, position, down) == Some(top)
    ensures child < |spans| && Parent(spans, child) == Some(top) && Ancestor(spans, position, down - 1) == Some(child)
  {
    hide Parent;
    child := Ancestor(spans, position, down - 1).value;
  }

  lemma TopInSubtree(spans: Spans, top: nat, depth: nat, room: nat)
    requires top < |spans| && room > 0
    ensures Row(depth, top) in Subtree(spans, top, depth, room)
  {
    hide *;
    SubtreeIs(spans, top, depth, room);
  }

  lemma InChild(spans: Spans, child: nat, top: nat, depth: nat, room: nat, row: Row)
    requires child < |spans| && top < |spans| && Parent(spans, child) == Some(top) && room > 0
    requires row in Subtree(spans, child, depth + 1, room - 1)
    ensures row in Subtree(spans, top, depth, room)
  {
    var children := Children(spans, Some(top));
    assert child in children;
    hide *;
    InForest(spans, children, child, depth + 1, room - 1, row);
    SubtreeIs(spans, top, depth, room);
  }

  lemma {:induction false} InForest(spans: Spans, positions: seq<nat>, position: nat, depth: nat, room: nat, row: Row)
    requires Inside(spans, positions) && position in positions && position < |spans|
    requires row in Subtree(spans, position, depth, room)
    ensures row in Forest(spans, positions, depth, room)
    decreases |positions|
  {
    hide Subtree, Forest;
    ForestIs(spans, positions, depth, room);
    if positions[0] != position {
      InForest(spans, positions[1..], position, depth, room, row);
    }
  }

  // ---------------------------------------------------------------- the preorder of the whole trace

  ghost predicate DeepestBelow(spans: Spans, levels: nat) {
    forall p: nat, d: nat :: AtDepth(spans, p, d) ==> d < levels
  }

  /** More levels than any rooted span is deep. */
  ghost function Levels(spans: Spans): (levels: nat)
    ensures DeepestBelow(spans, levels)
  {
    LevelsExist(spans);
    var levels: nat :| DeepestBelow(spans, levels);
    levels
  }

  lemma LevelsExist(spans: Spans)
    ensures exists levels: nat :: DeepestBelow(spans, levels)
  {
    var bound := DepthBound(spans, |spans|);
    assert DeepestBelow(spans, bound + 1);
  }

  /** The roots in start order, each with its subtree. */
  ghost function Preorder(spans: Spans): seq<Row> {
    Forest(spans, Children(spans, None), 0, Levels(spans))
  }

  /** The preorder lists every rooted span once, at its depth, and nothing else. */
  lemma PreorderListsRooted(spans: Spans)
    ensures Once(Preorder(spans))
    ensures forall i :: 0 <= i < |Preorder(spans)| ==>
              AtDepth(spans, Preorder(spans)[i].position, Preorder(spans)[i].depth)
    ensures forall p: nat, d: nat :: AtDepth(spans, p, d) ==> Row(d, p) in Preorder(spans)
  {
    var roots, room := Children(spans, None), Levels(spans);
    RootsDepth(spans);
    ChildrenOrdered(spans, None);
    ForestOnce(spans, roots, 0, room);
    ForestRows(spans, roots, 0, room);
    forall p: nat, d: nat | AtDepth(spans, p, d)
      ensures Row(d, p) in Preorder(spans)
    {
      var root := Ancestor(spans, p, d).value;
      assert root in roots;
      InSubtree(spans, p, root, 0, d, room);
      InForest(spans, roots, root, 0, room, Row(d, p));
    }
  }

  // ---------------------------------------------------------------- building the forest

  method BuildIndex(spans: Spans) returns (index: map<string, nat>)
    ensures forall id :: id in index <==> IndexOf(spans, id, |spans|).Some?
    ensures forall id :: id in index ==> index[id] == IndexOf(spans, id, |spans|).value
  {
    index := map[];
    for n := 0 to |spans|
      invariant forall id :: id in index <==> IndexOf(spans, id, n).Some?
      invariant forall id :: id in index ==> index[id] == IndexOf(spans, id, n).value
    {
      index := index[spans[n].spanId := n];
    }
  }

  function ListOf(children: map<nat, seq<nat>>, parent: nat): seq<nat> {
    if parent in children then children[parent] else []
  }

  /** What the index says of a span's parent. */
  lemma ParentIndexed(spans: Spans, n: nat, index: map<string, nat>)
    requires n < |spans| && forall id :: id in index <==> IndexOf(spans, id, |spans|).Some?
    requires forall id :: id in index ==> index[id] == IndexOf(spans, id, |spans|).value
    ensures var named := spans[n].parentId;
            Parent(spans, n)
            == if named.Some? && named.value != [] && named.value in index && index[named.value] != n
               then Some(index[named.value]) else None
  {
    var named := spans[n].parentId;
    hide IndexOf;
    if named.Some? {
      assert named.value in index <==> IndexOf(spans, named.value, |spans|).Some?;
    }
  }

  /** The parent of a span by the index of ids: itself, an empty id and an unknown one are none. */
  method IndexedParent(spans: Spans, n: nat, index: map<string, nat>) returns (parent: Option<nat>)
    requires n < |spans| && forall id :: id in index <==> IndexOf(spans, id, |spans|).Some?
    requires forall id :: id in index ==> index[id] == IndexOf(spans, id, |spans|).value
    ensures parent == Parent(spans, n)
  {
    ParentIndexed(spans, n, index);
    var named := spans[n].parentId;
    if named.Some? && named.value != [] && named.value in index && index[named.value] != n {
      return Some(index[named.value]);
    }
    return None;
  }

  lemma UnderNext(spans: Spans, parent: Option<nat>, n: nat)
    requires n < |spans|
    ensures Under(spans, parent, n + 1)
            == if Parent(spans, n) == parent then Under(spans, parent, n) + [n] else Under(spans, parent, n)
  {
  }

  /** The first `n` spans are sorted into roots and children. */
  ghost predicate GroupedTo(spans: Spans, children: map<nat, seq<nat>>, roots: seq<nat>, n: nat)
    requires n <= |spans|
  {
    roots == Under(spans, None, n) && forall p: nat :: ListOf(children, p) == Under(spans, Some(p), n)
  }

  lemma GroupedOne(spans: Spans, children: map<nat, seq<nat>>, roots: seq<nat>, n: nat)
    requires n < |spans| && GroupedTo(spans, children, roots, n)
    ensures Parent(spans, n).None? ==> GroupedTo(spans, children, roots + [n], n + 1)
    ensures Parent(spans, n).Some? ==>
              var p := Parent(spans, n).value;
              GroupedTo(spans, children[p := ListOf(children, p) + [n]], roots, n + 1)
  {
    hide Parent, Under;
    UnderNext(spans, None, n);
    forall p: nat
      ensures Under(spans, Some(p), n + 1)
              == if Parent(spans, n) == Some(p) then Under(spans, Some(p), n) + [n] else Under(spans, Some(p), n)
    {
      UnderNext(spans, Some(p), n);
    }
  }

  /** Sorts spans into roots and children, both in the order of the trace. */
  method Group(spans: Spans) returns (children: map<nat, seq<nat>>, roots: seq<nat>)
    ensures GroupedTo(spans, children, roots, |spans|)
  {
    var index := BuildIndex(spans);
    children, roots := map[], [];
    assert GroupedTo(spans, children, roots, 0);
    hide Parent, IndexOf, GroupedTo;
    for n := 0 to |spans|
      invariant GroupedTo(spans, children, roots, n)
    {
      GroupedOne(spans, children, roots, n);
      var parent := IndexedParent(spans, n, index);
      if parent.Some? {
        children := children[parent.value := ListOf(children, parent.value) + [n]];
      } else {
        roots := roots + [n];
      }
    }
  }

  method SortChildren(spans: Spans, children: map<nat, seq<nat>>) returns (sorted: map<nat, seq<nat>>)
    requires forall p: nat :: ListOf(children, p) == Under(spans, Some(p), |spans|)
    ensures forall p: nat :: ListOf(sorted, p) == Children(spans, Some(p))
  {
    hide Under, ByStart;
    sorted := children;
    var left := children.Keys;
    while left != {}
      invariant left <= children.Keys == sorted.Keys
      invariant forall p :: p in left ==> sorted[p] == children[p]
      invariant forall p :: p in sorted && p !in left ==> sorted[p] == Children(spans, Some(p))
    {
      var p :| p in left;
      assert ListOf(children, p) == children[p];
      sorted := sorted[p := ByStart(spans, children[p])];
      left := left - {p};
    }
    forall p: nat
      ensures ListOf(sorted, p) == Children(spans, Some(p))
    {
      if p !in sorted {
        assert ListOf(children, p) == [];
        NoneByStart(spans);
      }
    }
  }

  lemma NoneByStart(spans: Spans)
    ensures ByStart(spans, []) == []
  {
  }

  // ---------------------------------------------------------------- the walk

  ghost predicate StackSound(spans: Spans, stack: seq<Row>) {
    forall i :: 0 <= i < |stack| ==> AtDepth(spans, stack[i].position, stack[i].depth) && stack[i].depth < Levels(spans)
  }

  /** What a stack still has to yield, its top first. */
  ghost function Pending(spans: Spans, stack: seq<Row>): seq<Row>
    requires StackSound(spans, stack)
  {
    if stack == [] then []
    else
      var top := stack[|stack| - 1];
      Subtree(spans, top.position, top.depth, Levels(spans) - top.depth) + Pending(spans, stack[..|stack| - 1])
  }

  /** The subtrees of spans of one depth, with all the room there is. */
  ghost function ForestFrom(spans: Spans, positions: seq<nat>, depth: nat): seq<Row>
    requires Inside(spans, positions) && (positions != [] ==> depth < Levels(spans))
  {
    if positions == [] then [] else Forest(spans, positions, depth, Levels(spans) - depth)
  }

  /** Pushes spans of one depth so that the first comes off first. */
  method Push(ghost spans: Spans, stack: seq<Row>, positions: seq<nat>, depth: nat) returns (longer: seq<Row>)
    requires StackSound(spans, stack) && AllAtDepth(spans, positions, depth) && Inside(spans, positions)
    requires positions != [] ==> depth < Levels(spans)
    ensures StackSound(spans, longer)
    ensures Pending(spans, longer) == ForestFrom(spans, positions, depth) + Pending(spans, stack)
  {
    hide AtDepth, Subtree, Levels, Forest, Pending;
    longer := stack;
    var i := |positions|;
    NothingFrom(spans, positions[i..], depth, stack);
    while i > 0
      invariant 0 <= i <= |positions| && StackSound(spans, longer)
      invariant Inside(spans, positions[i..]) && (positions[i..] != [] ==> depth < Levels(spans))
      invariant Pending(spans, longer) == ForestFrom(spans, positions[i..], depth) + Pending(spans, stack)
    {
      i := i - 1;
      PushOne(spans, longer, positions[i..], depth, stack);
      assert positions[i..][1..] == positions[i + 1..];
      longer := longer + [Row(depth, positions[i])];
    }
    assert positions[0..] == positions;
  }

  lemma NothingFrom(spans: Spans, positions: seq<nat>, depth: nat, stack: seq<Row>)
    requires positions == [] && StackSound(spans, stack)
    ensures ForestFrom(spans, positions, depth) + Pending(spans, stack) == Pending(spans, stack)
  {
    hide Pending;
  }

  lemma PushOne(spans: Spans, stack: seq<Row>, positions: seq<nat>, depth: nat, base: seq<Row>)
    requires StackSound(spans, stack) && StackSound(spans, base) && positions != [] && Inside(spans, positions)
    requires AtDepth(spans, positions[0], depth) && depth < Levels(spans)
    requires Pending(spans, stack) == ForestFrom(spans, positions[1..], depth) + Pending(spans, base)
    ensures StackSound(spans, stack + [Row(depth, positions[0])])
    ensures Pending(spans, stack + [Row(depth, positions[0])])
            == ForestFrom(spans, positions, depth) + Pending(spans, base)
  {
    hide *;
    SoundMore(spans, stack, Row(depth, positions[0]));
    PendingOne(spans, stack, Row(depth, positions[0]));
    ForestFromFirst(spans, positions, depth);
    Regroup(Subtree(spans, positions[0], depth, Levels(spans) - depth), ForestFrom(spans, positions[1..], depth),
            Pending(spans, base));
  }

  lemma SoundMore(spans: Spans, stack: seq<Row>, row: Row)
    requires StackSound(spans, stack) && AtDepth(spans, row.position, row.depth) && row.depth < Levels(spans)
    ensures row.position < |spans| && StackSound(spans, stack + [row])
  {
    TopInside(spans, row);
    hide Levels, AtDepth;
  }

  lemma PendingOne(spans: Spans, stack: seq<Row>, row: Row)
    requires StackSound(spans, stack) && StackSound(spans, stack + [row]) && row.position < |spans|
    requires row.depth < Levels(spans)
    ensures Pending(spans, stack + [row])
            == Subtree(spans, row.position, row.depth, Levels(spans) - row.depth) + Pending(spans, stack)
  {
    hide Subtree, Levels, AtDepth, StackSound;
    var more := stack + [row];
    assert more[..|stack|] == stack && more[|stack|] == row;
  }

  lemma ForestFromFirst(spans: Spans, positions: seq<nat>, depth: nat)
    requires positions != [] && Inside(spans, positions) && depth < Levels(spans)
    ensures Inside(spans, positions[1..])
    ensures ForestFrom(spans, positions, depth)
            == Subtree(spans, positions[0], depth, Levels(spans) - depth) + ForestFrom(spans, positions[1..], depth)
  {
    hide Levels, Subtree, Forest;
    ForestIs(spans, positions, depth, Levels(spans) - depth);
    ForestIs(spans, positions[1..], depth, Levels(spans) - depth);
  }

  predicate Listed(rows: seq<Row>, position: nat) {
    exists i :: 0 <= i < |rows| && rows[i].position == position
  }

  /** What the top of the stack yields: its own row, then its children's subtrees, then the rest. */
  lemma TopYields(spans: Spans, stack: seq<Row>)
    requires stack != [] && StackSound(spans, stack)
    ensures var top, rest := stack[|stack| - 1], stack[..|stack| - 1];
            var children := Children(spans, Some(top.position));
            && AtDepth(spans, top.position, top.depth) && StackSound(spans, rest)
            && AllAtDepth(spans, children, top.depth + 1)
            && (children != [] ==> top.depth + 1 < Levels(spans))
            && Pending(spans, stack) == [top] + (ForestFrom(spans, children, top.depth + 1) + Pending(spans, rest))
  {
    hide Children, Levels, AtDepth, Forest, Subtree;
    var top, rest := stack[|stack| - 1], stack[..|stack| - 1];
    var children := Children(spans, Some(top.position));
    TopInside(spans, top);
    ChildrenDepth(spans, top.position, top.depth);
    if children != [] {
      assert AtDepth(spans, children[0], top.depth + 1);
    }
    TopIs(spans, top, children);
    Regroup([top], ForestFrom(spans, children, top.depth + 1), Pending(spans, rest));
  }

  lemma TopIs(spans: Spans, top: Row, children: seq<nat>)
    requires top.position < |spans| && top.depth < Levels(spans) && children == Children(spans, Some(top.position))
    requires children != [] ==> top.depth + 1 < Levels(spans)
    ensures Subtree(spans, top.position, top.depth, Levels(spans) - top.depth)
            == [top] + ForestFrom(spans, children, top.depth + 1)
  {
    hide *;
    var room := Levels(spans) - top.depth;
    SubtreeIs(spans, top.position, top.depth, room);
    ForestFromIs(spans, children, top.depth + 1, room - 1);
    assert Row(top.depth, top.position) == top;
  }

  lemma ForestFromIs(spans: Spans, positions: seq<nat>, depth: nat, room: nat)
    requires Inside(spans, positions) && depth + room == Levels(spans) && (positions != [] ==> depth < Levels(spans))
    ensures Forest(spans, positions, depth, room) == ForestFrom(spans, positions, depth)
  {
    hide Levels, Subtree;
  }

  /** The span at the top of the stack comes next in the preorder, and only there. */
  lemma TopIsNew(spans: Spans, ordered: seq<Row>, top: Row, later: seq<Row>)
    requires ordered + ([top] + later) == Preorder(spans)
    ensures !Listed(ordered, top.position)
  {
    PreorderListsRooted(spans);
    hide Preorder;
    var all := ordered + ([top] + later);
    assert all[|ordered|] == top;
    forall i | 0 <= i < |ordered|
      ensures ordered[i].position != top.position
    {
      assert all[i] == ordered[i];
    }
  }

  lemma ListedMore(rows: seq<Row>, row: Row)
    ensures forall p: nat :: Listed(rows + [row], p) <==> Listed(rows, p) || p == row.position
  {
    forall p: nat
      ensures Listed(rows + [row], p) <==> Listed(rows, p) || p == row.position
    {
      var more := rows + [row];
      assert more[|rows|] == row;
      if i :| 0 <= i < |rows| && rows[i].position == p {
        assert more[i] == rows[i];
      }
    }
  }

  lemma StartsPending(spans: Spans)
    ensures Pending(spans, []) == []
    ensures Children(spans, None) != [] ==> 0 < Levels(spans)
    ensures Preorder(spans) == ForestFrom(spans, Children(spans, None), 0)
            == [] + (ForestFrom(spans, Children(spans, None), 0) + [])
  {
    var roots := Children(spans, None);
    RootsDepth(spans);
    assert roots != [] ==> AtDepth(spans, roots[0], 0);
  }

  method Walk(spans: Spans, children: map<nat, seq<nat>>, roots: seq<nat>, visited: array<bool>)
    returns (ordered: seq<Row>)
    requires roots == Children(spans, None) && forall p: nat :: ListOf(children, p) == Children(spans, Some(p))
    requires visited.Length == |spans| && forall p :: 0 <= p < |spans| ==> !visited[p]
    modifies visited
    ensures ordered == Preorder(spans)
    ensures forall p :: 0 <= p < |spans| ==> (visited[p] <==> Listed(ordered, p))
  {
    hide Children, Subtree, ForestFrom, Levels, Pending, Preorder, Listed, AtDepth;
    ordered := [];
    NoneListed();
    StartsPending(spans);
    RootsDepth(spans);
    var stack := Push(spans, [], roots, 0);
    while stack != []
      invariant StackSound(spans, stack) && ordered + Pending(spans, stack) == Preorder(spans)
      invariant forall p :: 0 <= p < |spans| ==> (visited[p] <==> Listed(ordered, p))
      decreases |Preorder(spans)| - |ordered|, |stack|
    {
      TopYields(spans, stack);
      var top := stack[|stack| - 1];
      ghost var later := Pending(spans, stack)[1..];
      var Row(depth, position) := top;
      TopIsNew(spans, ordered, top, later);
      TopInside(spans, top);
      stack := stack[..|stack| - 1];
      if visited[position] {
        assert false;
      } else {
        visited[position] := true;
        ListedMore(ordered, top);
        ghost var before := ordered;
        ordered := ordered + [top];
        stack := Push(spans, stack, ListOf(children, position), depth + 1);
        assert before + ([top] + later) == ordered + later;
      }
    }
    assert ordered + Pending(spans, stack) == ordered;
  }

  lemma TopInside(spans: Spans, top: Row)
    requires AtDepth(spans, top.position, top.depth)
    ensures top.position < |spans|
  {
  }

  lemma NoneListed()
    ensures forall p: nat :: !Listed([], p)
  {
  }

  // ---------------------------------------------------------------- what a preorder is

  /** A child's row comes after its parent's, one level down. */
  ghost predicate AfterParent(spans: Spans, rows: seq<Row>, i: nat)
    requires i < |rows| && rows[i].position < |spans|
  {
    Parent(spans, rows[i].position).Some? && rows[i].depth > 0
    && exists j :: 0 <= j < i && rows[j] == Row(rows[i].depth - 1, Parent(spans, rows[i].position).value)
  }

  /** All rows past `i` up to `j` lie deeper. */
  predicate DeeperUpTo(rows: seq<Row>, i: nat, j: nat)
    requires i < j < |rows|
  {
    forall k :: i < k <= j ==> rows[k].depth > rows[i].depth
  }

  /** The descendants of a span are the run of deeper rows right after it. */
  ghost predicate Contiguous(spans: Spans, rows: seq<Row>) {
    forall i, j :: 0 <= i < j < |rows| ==>
      (RowUnder(spans, rows[j], rows[i].position, rows[i].depth) <==> DeeperUpTo(rows, i, j))
  }

  /** Children of one parent, and roots, are in start order. */
  ghost predicate SiblingsInOrder(spans: Spans, rows: seq<Row>) {
    && (forall i :: 0 <= i < |rows| ==> rows[i].position < |spans|)
    && forall i, j :: 0 <= i < j < |rows| && Parent(spans, rows[i].position) == Parent(spans, rows[j].position) ==>
         Earlier(spans, rows[i].position, rows[j].position)
  }

  lemma ContiguousJoined(spans: Spans, front: seq<Row>, back: seq<Row>, depth: nat)
    requires Contiguous(spans, front) && Contiguous(spans, back)
    requires back != [] ==> back[0].depth == depth
    requires forall i :: 0 <= i < |front| ==> front[i].depth >= depth
    requires forall i, j :: 0 <= i < |front| && 0 <= j < |back| ==>
               !RowUnder(spans, back[j], front[i].position, front[i].depth)
    ensures Contiguous(spans, front + back)
  {
    hide RowUnder, DeeperUpTo;
    var rows := front + back;
    forall i, j | 0 <= i < j < |rows|
      ensures RowUnder(spans, rows[j], rows[i].position, rows[i].depth) <==> DeeperUpTo(rows, i, j)
    {
      if j < |front| {
        DeeperKept(front, back, i, j);
      } else if i >= |front| {
        var a, b := i - |front|, j - |front|;
        assert RowUnder(spans, back[b], back[a].position, back[a].depth) <==> DeeperUpTo(back, a, b);
        DeeperShifted(front, back, a, b);
      } else {
        NotDeeper(rows, i, j, |front|);
      }
    }
  }

  lemma NotDeeper(rows: seq<Row>, i: nat, j: nat, k: nat)
    requires i < k <= j < |rows| && rows[k].depth <= rows[i].depth
    ensures !DeeperUpTo(rows, i, j)
  {
  }

  lemma DeeperKept(front: seq<Row>, back: seq<Row>, i: nat, j: nat)
    requires i < j < |front|
    ensures DeeperUpTo(front + back, i, j) <==> DeeperUpTo(front, i, j)
  {
    var rows := front + back;
    if DeeperUpTo(rows, i, j) {
      forall k | i < k <= j
        ensures front[k].depth > front[i].depth
      {
        assert rows[k] == front[k];
      }
    }
  }

  lemma DeeperShifted(front: seq<Row>, back: seq<Row>, a: nat, b: nat)
    requires a < b < |back|
    ensures DeeperUpTo(front + back, |front| + a, |front| + b) <==> DeeperUpTo(back, a, b)
  {
    var rows := front + back;
    if DeeperUpTo(rows, |front| + a, |front| + b) {
      forall k | a < k <= b
        ensures back[k].depth > back[a].depth
      {
        assert rows[|front| + k] == back[k];
      }
    }
  }

  lemma {:induction false} SubtreeContiguous(spans: Spans, position: nat, depth: nat, room: nat)
    requires AtDepth(spans, position, depth)
    ensures Contiguous(spans, Subtree(spans, position, depth, room))
    decreases room, 0
  {
    if room > 0 {
      var children := Children(spans, Some(position));
      ChildrenDepth(spans, position, depth);
      ChildrenOrdered(spans, Some(position));
      SubtreeRows(spans, position, depth, room);
      ForestContiguous(spans, children, depth + 1, room - 1);
      ForestRows(spans, children, depth + 1, room - 1);
      var rows := Forest(spans, children, depth + 1, room - 1);
      hide Children, Forest;
      var all := [Row(depth, position)] + rows;
      assert all == Subtree(spans, position, depth, room);
      hide Subtree;
      forall j | 0 <= j < |rows|
        ensures rows[j].depth > depth && RowUnder(spans, rows[j], position, depth)
      {
        assert all[j + 1] == rows[j];
        var k :| 0 <= k < |children| && RowUnder(spans, rows[j], children[k], depth + 1);
      }
      TopContiguous(spans, Row(depth, position), rows);
    }
  }

  lemma TopContiguous(spans: Spans, top: Row, rows: seq<Row>)
    requires Contiguous(spans, rows)
    requires forall j :: 0 <= j < |rows| ==>
               rows[j].depth > top.depth && RowUnder(spans, rows[j], top.position, top.depth)
    ensures Contiguous(spans, [top] + rows)
  {
    hide RowUnder, DeeperUpTo;
    var all := [top] + rows;
    forall i, j | 0 <= i < j < |all|
      ensures RowUnder(spans, all[j], all[i].position, all[i].depth) <==> DeeperUpTo(all, i, j)
    {
      if i > 0 {
        DeeperShifted([top], rows, i - 1, j - 1);
      } else {
        DeeperThanTop(top, rows, j);
      }
    }
  }

  lemma DeeperThanTop(top: Row, rows: seq<Row>, j: nat)
    requires 0 < j <= |rows| && forall k :: 0 <= k < |rows| ==> rows[k].depth > top.depth
    ensures DeeperUpTo([top] + rows, 0, j)
  {
  }

  /** A row under another is under whatever that one is under. */
  lemma UnderUnder(spans: Spans, low: Row, middle: Row, top: nat, depth: nat)
    requires RowUnder(spans, low, middle.position, middle.depth) && RowUnder(spans, middle, top, depth)
    ensures RowUnder(spans, low, top, depth)
  {
    AncestorSum(spans, low.position, low.depth - middle.depth, middle.depth - depth);
  }

  lemma UnderOnce(spans: Spans, row: Row, top: nat, otherTop: nat, depth: nat)
    requires RowUnder(spans, row, top, depth) && RowUnder(spans, row, otherTop, depth)
    ensures top == otherTop
  {
  }

  lemma {:induction false} ForestContiguous(spans: Spans, positions: seq<nat>, depth: nat, room: nat)
    requires Inside(spans, positions) && AllAtDepth(spans, positions, depth) && Distinct(positions)
    ensures Contiguous(spans, Forest(spans, positions, depth, room))
    decreases room, 1, |positions|
  {
    hide RowUnder, Subtree, AtDepth;
    if positions != [] {
      var first, later := Subtree(spans, positions[0], depth, room), Forest(spans, positions[1..], depth, room);
      SubtreeContiguous(spans, positions[0], depth, room);
      ForestContiguous(spans, positions[1..], depth, room);
      SubtreeRows(spans, positions[0], depth, room);
      ForestRows(spans, positions[1..], depth, room);
      forall i, j | 0 <= i < |first| && 0 <= j < |later|
        ensures !RowUnder(spans, later[j], first[i].position, first[i].depth)
      {
        if RowUnder(spans, later[j], first[i].position, first[i].depth) {
          var k :| 0 <= k < |positions| - 1 && RowUnder(spans, later[j], positions[1..][k], depth);
          UnderUnder(spans, later[j], first[i], positions[0], depth);
          UnderOnce(spans, later[j], positions[0], positions[1..][k], depth);
        }
      }
      ForestStarts(spans, positions[1..], depth, room);
      RowsDeep(spans, first, positions[0], depth);
      ContiguousJoined(spans, first, later, depth);
    }
  }

  lemma RowsDeep(spans: Spans, rows: seq<Row>, top: nat, depth: nat)
    requires forall i :: 0 <= i < |rows| ==> RowUnder(spans, rows[i], top, depth)
    ensures forall i :: 0 <= i < |rows| ==> rows[i].depth >= depth
  {
  }

  lemma ForestStarts(spans: Spans, positions: seq<nat>, depth: nat, room: nat)
    requires Inside(spans, positions)
    ensures Forest(spans, positions, depth, room) != [] ==> Forest(spans, positions, depth, room)[0].depth == depth
    decreases |positions|
  {
    if positions != [] && room == 0 {
      ForestStarts(spans, positions[1..], depth, room);
    }
  }

  lemma OneUp(spans: Spans, position: nat)
    requires position < |spans|
    ensures Ancestor(spans, position, 1) == Parent(spans, position)
  {
    assert Ancestor(spans, position, 0) == Some(position);
    hide Parent;
  }

  /** Rows under different spans of one depth share a parent only if they are those spans. */
  lemma SiblingsApart(spans: Spans, one: Row, other: Row, top: nat, otherTop: nat, depth: nat)
    requires RowUnder(spans, one, top, depth) && RowUnder(spans, other, otherTop, depth) && top != otherTop
    requires Parent(spans, one.position) == Parent(spans, other.position)
    ensures one.position == top && other.position == otherTop
  {
    if Parent(spans, one.position).Some? {
      var parent := Parent(spans, one.position).value;
      OneUp(spans, one.position);
      OneUp(spans, other.position);
      ParentDepth(spans, one.position, one.depth);
      ParentDepth(spans, other.position, other.depth);
      DepthIsOne(spans, parent, one.depth - 1, other.depth - 1);
      if one.depth > depth {
        AncestorSum(spans, one.position, 1, one.depth - depth - 1);
        AncestorSum(spans, other.position, 1, other.depth - depth - 1);
      }
    } else {
      RootDepth(spans, one.position, one.depth);
      RootDepth(spans, other.position, other.depth);
    }
  }

  lemma RootDepth(spans: Spans, position: nat, depth: nat)
    requires AtDepth(spans, position, depth) && Parent(spans, position).None?
    ensures depth == 0
  {
    assert AtDepth(spans, position, 0);
    DepthIsOne(spans, position, depth, 0);
  }

  lemma ParentDepth(spans: Spans, position: nat, depth: nat)
    requires AtDepth(spans, position, depth) && Parent(spans, position).Some?
    ensures depth > 0 && AtDepth(spans, Parent(spans, position).value, depth - 1)
  {
    assert Ancestor(spans, position, 1) == Parent(spans, position);
    if depth > 0 {
      AncestorSum(spans, position, 1, depth - 1);
    }
  }

  lemma {:induction false} SubtreeSiblings(spans: Spans, position: nat, depth: nat, room: nat)
    requires AtDepth(spans, position, depth)
    ensures SiblingsInOrder(spans, Subtree(spans, position, depth, room))
    decreases room, 0
  {
    if room > 0 {
      var children := Children(spans, Some(position));
      ChildrenDepth(spans, position, depth);
      ChildrenOrdered(spans, Some(position));
      ForestSiblings(spans, children, depth + 1, room - 1);
      ForestRows(spans, children, depth + 1, room - 1);
      var rows := Forest(spans, children, depth + 1, room - 1);
      assert Subtree(spans, position, depth, room) == [Row(depth, position)] + rows;
      DepthInside(spans, position, depth);
      hide Children, Forest, Earlier, Parent, Subtree, AtDepth, SiblingsInOrder, RowUnderOne;
      NoneIsSibling(spans, rows, children, position, depth);
      TopSibling(spans, Row(depth, position), rows);
    } else {
      assert Subtree(spans, position, depth, room) == [];
    }
  }

  lemma NoneIsSibling(spans: Spans, rows: seq<Row>, children: seq<nat>, position: nat, depth: nat)
    requires position < |spans| && AtDepth(spans, position, depth)
    requires forall i :: 0 <= i < |rows| ==> RowUnderOne(spans, rows[i], children, depth + 1)
    ensures forall i :: 0 <= i < |rows| ==>
              rows[i].position < |spans| && Parent(spans, rows[i].position) != Parent(spans, position)
  {
    hide RowUnder, AtDepth, Parent;
    forall i | 0 <= i < |rows|
      ensures rows[i].position < |spans| && Parent(spans, rows[i].position) != Parent(spans, position)
    {
      var k :| 0 <= k < |children| && RowUnder(spans, rows[i], children[k], depth + 1);
      UnderIsDeep(spans, rows[i], children[k], depth + 1);
      DeeperNoSibling(spans, rows[i], position, depth);
    }
  }

  lemma UnderIsDeep(spans: Spans, row: Row, top: nat, depth: nat)
    requires RowUnder(spans, row, top, depth)
    ensures AtDepth(spans, row.position, row.depth) && row.position < |spans| && row.depth >= depth
  {
  }

  lemma DepthInside(spans: Spans, position: nat, depth: nat)
    requires AtDepth(spans, position, depth)
    ensures position < |spans|
  {
  }

  lemma TopSibling(spans: Spans, top: Row, rows: seq<Row>)
    requires SiblingsInOrder(spans, rows) && top.position < |spans|
    requires forall j :: 0 <= j < |rows| ==> Parent(spans, rows[j].position) != Parent(spans, top.position)
    ensures SiblingsInOrder(spans, [top] + rows)
  {
    hide Earlier, Parent;
  }

  lemma DeeperNoSibling(spans: Spans, row: Row, position: nat, depth: nat)
    requires AtDepth(spans, row.position, row.depth) && AtDepth(spans, position, depth) && row.depth > depth
    ensures Parent(spans, row.position) != Parent(spans, position)
  {
    if Parent(spans, row.position) == Parent(spans, position) {
      if Parent(spans, position).None? {
        RootDepth(spans, row.position, row.depth);
      } else {
        ParentDepth(spans, row.position, row.depth);
        ParentDepth(spans, position, depth);
        DepthIsOne(spans, Parent(spans, position).value, row.depth - 1, depth - 1);
      }
    }
  }

  lemma {:induction false} ForestSiblings(spans: Spans, positions: seq<nat>, depth: nat, room: nat)
    requires InStartOrder(spans, positions) && AllAtDepth(spans, positions, depth)
    ensures SiblingsInOrder(spans, Forest(spans, positions, depth, room))
    decreases room, 1, |positions|
  {
    hide RowUnder, Subtree, AtDepth, Earlier;
    if positions != [] {
      var first, later := Subtree(spans, positions[0], depth, room), Forest(spans, positions[1..], depth, room);
      OrderedAreDistinct(spans, positions);
      SubtreeSiblings(spans, positions[0], depth, room);
      ForestSiblings(spans, positions[1..], depth, room);
      SubtreeRows(spans, positions[0], depth, room);
      ForestRows(spans, positions[1..], depth, room);
      forall i, j | 0 <= i < |first| && 0 <= j < |later|
             && Parent(spans, first[i].position) == Parent(spans, later[j].position)
        ensures Earlier(spans, first[i].position, later[j].position)
      {
        var k :| 0 <= k < |positions| - 1 && RowUnder(spans, later[j], positions[1..][k], depth);
        SiblingsApart(spans, first[i], later[j], positions[0], positions[1..][k], depth);
      }
      SiblingsJoined(spans, first, later);
    }
  }

  lemma SiblingsJoined(spans: Spans, front: seq<Row>, back: seq<Row>)
    requires SiblingsInOrder(spans, front) && SiblingsInOrder(spans, back)
    requires forall i, j ::
               0 <= i < |front| && 0 <= j < |back|
               && Parent(spans, front[i].position) == Parent(spans, back[j].position) ==>
                 Earlier(spans, front[i].position, back[j].position)
    ensures SiblingsInOrder(spans, front + back)
  {
    hide Earlier, Parent;
  }

  /** A row follows its parent, or is one of these spans at the top. */
  ghost predicate Follows(spans: Spans, rows: seq<Row>, i: nat, tops: seq<nat>, depth: nat)
    requires i < |rows|
  {
    rows[i].position < |spans| && (AfterParent(spans, rows, i) || (rows[i].position in tops && rows[i].depth == depth))
  }

  ghost predicate AllFollow(spans: Spans, rows: seq<Row>, tops: seq<nat>, depth: nat) {
    forall i :: 0 <= i < |rows| ==> Follows(spans, rows, i, tops, depth)
  }

  /** Every row of a subtree but its top follows its parent. */
  lemma {:induction false} SubtreeAfterParents(spans: Spans, position: nat, depth: nat, room: nat)
    requires AtDepth(spans, position, depth)
    ensures AllFollow(spans, Subtree(spans, position, depth, room), [position], depth)
    decreases room, 0
  {
    hide Children, Subtree, Forest, AtDepth;
    if room > 0 {
      var children := Children(spans, Some(position));
      ChildrenDepth(spans, position, depth);
      DepthInside(spans, position, depth);
      ForestAfterParents(spans, children, depth + 1, room - 1);
      SubtreeIs(spans, position, depth, room);
      TopFollows(spans, Row(depth, position), Forest(spans, children, depth + 1, room - 1), children);
    } else {
      DepthInside(spans, position, depth);
      NoRoom(spans, position, depth);
    }
  }

  lemma NoRoom(spans: Spans, position: nat, depth: nat)
    requires position < |spans|
    ensures Subtree(spans, position, depth, 0) == []
  {
  }

  lemma TopFollows(spans: Spans, top: Row, rows: seq<Row>, children: seq<nat>)
    requires top.position < |spans| && Inside(spans, children) && AllFollow(spans, rows, children, top.depth + 1)
    requires forall x: nat :: x in children ==> x < |spans| && Parent(spans, x) == Some(top.position)
    ensures AllFollow(spans, [top] + rows, [top.position], top.depth)
  {
    hide AfterParent, Parent;
    var all := [top] + rows;
    forall i | 0 <= i < |all|
      ensures Follows(spans, all, i, [top.position], top.depth)
    {
      if i > 0 {
        assert Follows(spans, rows, i - 1, children, top.depth + 1);
        FollowsUnder(spans, top, rows, i - 1, children);
      }
    }
  }

  lemma FollowsUnder(spans: Spans, top: Row, rows: seq<Row>, i: nat, children: seq<nat>)
    requires i < |rows| && Follows(spans, rows, i, children, top.depth + 1) && Inside(spans, children)
    requires forall x: nat :: x in children ==> x < |spans| && Parent(spans, x) == Some(top.position)
    ensures Follows(spans, [top] + rows, i + 1, [top.position], top.depth)
  {
    hide Parent;
    var all := [top] + rows;
    assert all[i + 1] == rows[i] && all[0] == top;
    if AfterParent(spans, rows, i) {
      AfterParentIn(spans, [top], rows, [], i);
      assert [top] + rows + [] == all;
    }
  }

  lemma {:induction false} ForestAfterParents(spans: Spans, positions: seq<nat>, depth: nat, room: nat)
    requires Inside(spans, positions) && AllAtDepth(spans, positions, depth)
    ensures AllFollow(spans, Forest(spans, positions, depth, room), positions, depth)
    decreases room, 1, |positions|
  {
    hide AtDepth, AllFollow, Subtree;
    if positions == [] {
      NoneFollow(spans, positions, depth);
    } else {
      var first, later := Subtree(spans, positions[0], depth, room), Forest(spans, positions[1..], depth, room);
      SubtreeAfterParents(spans, positions[0], depth, room);
      ForestAfterParents(spans, positions[1..], depth, room);
      FollowJoined(spans, first, later, [positions[0]], positions[1..], positions, depth);
    }
  }

  lemma NoneFollow(spans: Spans, tops: seq<nat>, depth: nat)
    ensures AllFollow(spans, [], tops, depth)
  {
  }

  lemma FollowJoined(spans: Spans, first: seq<Row>, later: seq<Row>, firsts: seq<nat>, laters: seq<nat>, tops: seq<nat>,
                     depth: nat)
    requires AllFollow(spans, first, firsts, depth) && AllFollow(spans, later, laters, depth) && tops == firsts + laters
    ensures AllFollow(spans, first + later, tops, depth)
  {
    hide AfterParent;
    var all := first + later;
    forall i | 0 <= i < |all|
      ensures Follows(spans, all, i, tops, depth)
    {
      if i < |first| {
        assert Follows(spans, first, i, firsts, depth);
        if AfterParent(spans, first, i) {
          AfterParentIn(spans, [], first, later, i);
          assert [] + first + later == all;
        }
      } else {
        var k := i - |first|;
        assert Follows(spans, later, k, laters, depth);
        if AfterParent(spans, later, k) {
          AfterParentIn(spans, first, later, [], k);
          assert first + later + [] == all;
        }
      }
    }
  }

  lemma AfterParentIn(spans: Spans, front: seq<Row>, rows: seq<Row>, back: seq<Row>, i: nat)
    requires i < |rows| && rows[i].position < |spans| && AfterParent(spans, rows, i)
    ensures var all := front + rows + back;
            all[|front| + i] == rows[i] && AfterParent(spans, all, |front| + i)
  {
    hide Parent;
    var all := front + rows + back;
    assert all[|front| + i] == rows[i];
    var j :| 0 <= j < i && rows[j] == Row(rows[i].depth - 1, Parent(spans, rows[i].position).value);
    assert all[|front| + j] == rows[j];
  }

  /** What the walk's order is: every span that is not a root after its parent and one level down, every subtree one run
      of rows, siblings and roots in start order. */
  lemma PreorderArranged(spans: Spans)
    ensures Contiguous(spans, Preorder(spans)) && SiblingsInOrder(spans, Preorder(spans))
    ensures var rows := Preorder(spans);
            forall i :: 0 <= i < |rows| ==>
              rows[i].position < |spans|
              && (AfterParent(spans, rows, i) || (Parent(spans, rows[i].position).None? && rows[i].depth == 0))
  {
    var roots := Children(spans, None);
    RootsDepth(spans);
    ChildrenOrdered(spans, None);
    ForestContiguous(spans, roots, 0, Levels(spans));
    ForestSiblings(spans, roots, 0, Levels(spans));
    ForestAfterParents(spans, roots, 0, Levels(spans));
    var rows := Preorder(spans);
    hide Preorder;
    forall i | 0 <= i < |rows|
      ensures rows[i].position < |spans|
              && (AfterParent(spans, rows, i) || (Parent(spans, rows[i].position).None? && rows[i].depth == 0))
    {
      assert Follows(spans, rows, i, roots, 0);
    }
  }

  // ---------------------------------------------------------------- the whole

  /** The spans no root leads to, in the order of the trace. */
  ghost function Unplaced(spans: Spans, n: nat): seq<Row>
    requires n <= |spans|
  {
    if n == 0 then []
    else if Rooted(spans, n - 1) then Unplaced(spans, n - 1)
    else Unplaced(spans, n - 1) + [Row(0, n - 1)]
  }

  lemma ListedRooted(spans: Spans, position: nat)
    requires position < |spans|
    ensures Listed(Preorder(spans), position) <==> Rooted(spans, position)
  {
    PreorderListsRooted(spans);
    hide Preorder;
    if depth: nat :| AtDepth(spans, position, depth) {
      var rows := Preorder(spans);
      assert Row(depth, position) in rows;
      var i :| 0 <= i < |rows| && rows[i] == Row(depth, position);
    }
  }

  lemma {:induction false} UnplacedOnce(spans: Spans, n: nat)
    requires n <= |spans|
    ensures Once(Unplaced(spans, n))
    ensures forall i :: 0 <= i < |Unplaced(spans, n)| ==>
              Unplaced(spans, n)[i].position < n && !Rooted(spans, Unplaced(spans, n)[i].position)
    ensures forall p: nat :: p < n && !Rooted(spans, p) ==> Listed(Unplaced(spans, n), p)
  {
    hide Rooted;
    if n > 0 {
      var before := Unplaced(spans, n - 1);
      UnplacedOnce(spans, n - 1);
      ListedMore(before, Row(0, n - 1));
    }
  }

  /** Depth-first order of a trace's spans, and how many could not be placed. */
  method DepthFirstOrder(spans: Spans) returns (ordered: seq<Row>, cycles: nat)
    ensures ordered == Preorder(spans) + Unplaced(spans, |spans|) && cycles == |Unplaced(spans, |spans|)|
    ensures Once(ordered) && forall p: nat :: p < |spans| <==> Listed(ordered, p)
  {
    hide Preorder, Unplaced, Listed, Children, Under;
    var grouped, roots := Group(spans);
    var children := SortChildren(spans, grouped);
    roots := ByStart(spans, roots);
    RootsAre(spans);
    var visited := new bool[|spans|](_ => false);
    ordered := Walk(spans, children, roots, visited);
    ghost var placed := ordered;
    cycles := 0;
    UnplacedNone(spans);
    for p := 0 to |spans|
      invariant ordered == placed + Unplaced(spans, p) && cycles == |Unplaced(spans, p)|
      invariant forall q :: 0 <= q < |spans| ==> (visited[q] <==> Listed(placed, q))
    {
      ListedRooted(spans, p);
      UnplacedNext(spans, p);
      if !visited[p] {
        ordered := ordered + [Row(0, p)];
        cycles := cycles + 1;
      }
    }
    EachOnce(spans);
  }

  lemma RootsAre(spans: Spans)
    ensures Children(spans, None) == ByStart(spans, Under(spans, None, |spans|))
  {
  }

  lemma UnplacedNone(spans: Spans)
    ensures Unplaced(spans, 0) == []
  {
  }

  lemma UnplacedNext(spans: Spans, p: nat)
    requires p < |spans|
    ensures Unplaced(spans, p + 1) == if Rooted(spans, p) then Unplaced(spans, p) else Unplaced(spans, p) + [Row(0, p)]
  {
  }

  /** Every span of the trace is listed once, cycles or not. */
  lemma EachOnce(spans: Spans)
    ensures var rows := Preorder(spans) + Unplaced(spans, |spans|);
            Once(rows) && forall p: nat :: p < |spans| <==> Listed(rows, p)
  {
    hide Preorder, Unplaced;
    var placed, unplaced := Preorder(spans), Unplaced(spans, |spans|);
    PreorderListsRooted(spans);
    UnplacedOnce(spans, |spans|);
    forall i, j | 0 <= i < |placed| && 0 <= j < |unplaced|
      ensures placed[i].position != unplaced[j].position
    {
      assert Rooted(spans, placed[i].position);
    }
    OnceJoined(placed, unplaced);
    forall p: nat
      ensures p < |spans| <==> Listed(placed + unplaced, p)
    {
      ListedJoined(placed, unplaced, p);
      if p < |spans| {
        ListedRooted(spans, p);
      }
      if Listed(placed, p) {
        var i :| 0 <= i < |placed| && placed[i].position == p;
        assert AtDepth(spans, placed[i].position, placed[i].depth);
      }
    }
  }

  lemma ListedJoined(front: seq<Row>, back: seq<Row>, p: nat)
    ensures Listed(front + back, p) <==> Listed(front, p) || Listed(back, p)
  {
    var all := front + back;
    if i :| 0 <= i < |front| && front[i].position == p {
      assert all[i] == front[i];
    }
    if i :| 0 <= i < |back| && back[i].position == p {
      assert all[|front| + i] == back[i];
    }
    if i :| 0 <= i < |all| && all[i].position == p {
      assert i < |front| ==> front[i] == all[i];
      assert i >= |front| ==> back[i - |front|] == all[i];
    }
  }
}

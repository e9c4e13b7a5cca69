/** Comparing the scores of two experiments (`src/evals.rs`): the winning score of every example and name, and what
    moved between a base and a candidate. */
module Scores {
  import opened Common
  import opened CanonicalJson

  /** A value as the program holds one: its objects have every key once, in order. */
  type HeldJson = json: Json | Keyed(json) && Ordered(json) == json witness Null

  /** A score's value, by what can be compared: numbers and booleans as numbers, anything else as it is. */
  datatype ScoreValue = Numeric(number: real) | Truth(truth: bool) | Label(json: HeldJson)

  datatype Score = Score(exampleId: string, name: string, value: ScoreValue, timestampNs: U64, traceId: string,
                         spanId: string)

  datatype Address = Address(exampleId: string, name: string)

  function AddressOf(score: Score): Address { Address(score.exampleId, score.name) }

  // ---------------------------------------------------------------- the winning score

  /** Later, then by trace, then by span. */
  predicate Newer(a: Score, b: Score) {
    a.timestampNs > b.timestampNs
    || (a.timestampNs == b.timestampNs
        && (Less(b.traceId, a.traceId) || (a.traceId == b.traceId && Less(b.spanId, a.spanId))))
  }

  predicate SameRank(a: Score, b: Score) {
    a.timestampNs == b.timestampNs && a.traceId == b.traceId && a.spanId == b.spanId
  }

  lemma NewerTotal(a: Score, b: Score)
    ensures Newer(a, b) || Newer(b, a) || SameRank(a, b)
    ensures !(Newer(a, b) && Newer(b, a)) && (SameRank(a, b) ==> !Newer(a, b))
  {
    LessTotal(a.traceId, b.traceId);
    LessTotal(a.spanId, b.spanId);
  }

  lemma NewerThrough(a: Score, b: Score, c: Score)
    requires Newer(a, b) && !Newer(c, b)
    ensures Newer(a, c)
  {
    NewerTotal(b, c);
    LessTotal(a.traceId, b.traceId);
    LessTotal(b.traceId, c.traceId);
    LessTotal(a.spanId, b.spanId);
    LessTotal(b.spanId, c.spanId);
    if Less(c.traceId, b.traceId) && Less(b.traceId, a.traceId) {
      LessTransitive(c.traceId, b.traceId, a.traceId);
    }
    if Less(c.spanId, b.spanId) && Less(b.spanId, a.spanId) {
      LessTransitive(c.spanId, b.spanId, a.spanId);
    }
  }

  /** No score of its address is newer. */
  predicate Unbeaten(scores: seq<Score>, score: Score) {
    forall other :: other in scores && AddressOf(other) == AddressOf(score) ==> !Newer(other, score)
  }

  /** The winner of its address: unbeaten, and the first of equals. */
  predicate WinnerAt(scores: seq<Score>, at: nat) {
    && at < |scores| && Unbeaten(scores, scores[at])
    && forall i :: 0 <= i < at && AddressOf(scores[i]) == AddressOf(scores[at]) ==> Newer(scores[at], scores[i])
  }

  /** For every address that has scores, its winner, and nothing else. */
  ghost predicate Deduplicated(latest: map<Address, Score>, scores: seq<Score>) {
    && (forall address :: address in latest <==> exists i :: 0 <= i < |scores| && AddressOf(scores[i]) == address)
    && forall address :: address in latest ==>
         exists at: nat :: WinnerAt(scores, at) && scores[at] == latest[address] && AddressOf(scores[at]) == address
  }

  /** The winners of what has been read, and where each was. */
  ghost predicate Holding(latest: map<Address, Score>, at: map<Address, nat>, scores: seq<Score>) {
    && at.Keys == latest.Keys
    && (forall address :: address in latest <==> exists i :: 0 <= i < |scores| && AddressOf(scores[i]) == address)
    && forall address :: address in latest ==> HeldAt(latest, at, scores, address)
  }

  ghost predicate HeldAt(latest: map<Address, Score>, at: map<Address, nat>, scores: seq<Score>, address: Address)
    requires address in latest && at.Keys == latest.Keys
  {
    && WinnerAt(scores, at[address]) && scores[at[address]] == latest[address] && AddressOf(latest[address]) == address
  }

  method DedupScores(scores: seq<Score>) returns (latest: map<Address, Score>)
    ensures Deduplicated(latest, scores)
    ensures forall score :: score in scores ==> BeatenBy(score, latest)
  {
    latest := map[];
    ghost var at: map<Address, nat> := map[];
    ghost var read: seq<Score> := [];
    for n := 0 to |scores|
      invariant read == scores[..n] && Holding(latest, at, read)
    {
      latest, at := Consider(latest, at, read, scores[n]);
      read := read + [scores[n]];
    }
    assert read == scores;
    assert forall address :: address in latest ==> HeldAt(latest, at, scores, address);
    forall score | score in scores
      ensures BeatenBy(score, latest)
    {
      DedupKeepsLater(latest, scores, score);
    }
  }

  /** Its example and name have a winner, no older, and of the same time no smaller in trace, then span. */
  predicate BeatenBy(score: Score, latest: map<Address, Score>) {
    Address(score.exampleId, score.name) in latest
    && var winner := latest[Address(score.exampleId, score.name)];
    && winner.exampleId == score.exampleId && winner.name == score.name && score.timestampNs <= winner.timestampNs
    && (score.timestampNs == winner.timestampNs ==> !Less(winner.traceId, score.traceId))
    && (score.timestampNs == winner.timestampNs && score.traceId == winner.traceId ==>
          !Less(winner.spanId, score.spanId))
  }

  lemma DedupKeepsLater(latest: map<Address, Score>, scores: seq<Score>, score: Score)
    requires Deduplicated(latest, scores) && score in scores
    ensures BeatenBy(score, latest)
  {
    var i :| 0 <= i < |scores| && scores[i] == score;
    assert AddressOf(scores[i]) in latest;
    var at: nat :| WinnerAt(scores, at) && scores[at] == latest[AddressOf(score)];
    assert !Newer(score, scores[at]);
  }

  /** One score more: it takes its address when that is free or held by an older one. */
  method Consider(latest: map<Address, Score>, ghost at: map<Address, nat>, ghost scores: seq<Score>, score: Score)
    returns (r: map<Address, Score>, ghost where: map<Address, nat>)
    requires Holding(latest, at, scores)
    ensures Holding(r, where, scores + [score])
  {
    hide Newer, WinnerAt;
    var address := AddressOf(score);
    OthersStay(latest, at, scores, score);
    if address !in latest {
      FirstWins(scores, score);
      r, where := latest[address := score], at[address := |scores|];
      TakenOver(latest, at, scores, score);
    } else if Newer(score, latest[address]) {
      assert HeldAt(latest, at, scores, address);
      BeatsWinner(scores, score, at[address]);
      r, where := latest[address := score], at[address := |scores|];
      TakenOver(latest, at, scores, score);
    } else {
      assert HeldAt(latest, at, scores, address);
      StaysWinner(scores, score, at[address]);
      WinnerInside(scores, at[address]);
      r, where := latest, at;
      assert HeldAt(latest, at, scores + [score], address);
    }
    hide AddressOf, HeldAt;
    var more := scores + [score];
    forall a
      ensures a in r <==> exists i :: 0 <= i < |more| && AddressOf(more[i]) == a
    {
      AddressesMore(scores, score, a);
    }
  }

  lemma TakenOver(latest: map<Address, Score>, at: map<Address, nat>, scores: seq<Score>, score: Score)
    requires at.Keys == latest.Keys && WinnerAt(scores + [score], |scores|)
    requires forall a :: a in latest && a != AddressOf(score) ==> HeldAt(latest, at, scores + [score], a)
    ensures var address := AddressOf(score);
            var r, where := latest[address := score], at[address := |scores|];
            where.Keys == r.Keys && forall a :: a in r ==> HeldAt(r, where, scores + [score], a)
  {
    hide WinnerAt;
    var address := AddressOf(score);
    var r, where := latest[address := score], at[address := |scores|];
    forall a | a in r
      ensures where.Keys == r.Keys && HeldAt(r, where, scores + [score], a)
    {
      assert a != address ==> HeldAt(latest, at, scores + [score], a);
    }
  }

  lemma AddressesMore(scores: seq<Score>, score: Score, address: Address)
    ensures (exists i :: 0 <= i < |scores + [score]| && AddressOf((scores + [score])[i]) == address)
            <==> AddressOf(score) == address || exists i :: 0 <= i < |scores| && AddressOf(scores[i]) == address
  {
    hide AddressOf;
    var more := scores + [score];
    assert more[|scores|] == score && forall i :: 0 <= i < |scores| ==> more[i] == scores[i];
  }

  lemma OthersStay(latest: map<Address, Score>, at: map<Address, nat>, scores: seq<Score>, score: Score)
    requires Holding(latest, at, scores)
    ensures forall address :: address in latest && address != AddressOf(score) ==>
              HeldAt(latest, at, scores + [score], address)
  {
    hide WinnerAt;
    forall address | address in latest && address != AddressOf(score)
      ensures HeldAt(latest, at, scores + [score], address)
    {
      assert HeldAt(latest, at, scores, address);
      WinnerInside(scores, at[address]);
      StaysWinner(scores, score, at[address]);
    }
  }

  lemma WinnerInside(scores: seq<Score>, at: nat)
    requires WinnerAt(scores, at)
    ensures at < |scores|
  {
  }

  lemma StaysWinner(scores: seq<Score>, score: Score, at: nat)
    requires WinnerAt(scores, at) && (AddressOf(score) == AddressOf(scores[at]) ==> !Newer(score, scores[at]))
    ensures WinnerAt(scores + [score], at)
  {
    hide Newer;
  }

  lemma BeatsWinner(scores: seq<Score>, score: Score, at: nat)
    requires WinnerAt(scores, at) && AddressOf(scores[at]) == AddressOf(score) && Newer(score, scores[at])
    ensures WinnerAt(scores + [score], |scores|)
  {
    hide Newer;
    var more := scores + [score];
    NewerTotal(score, score);
    forall other | other in more && AddressOf(other) == AddressOf(score)
      ensures !Newer(other, score)
    {
      if other in scores {
        NewerThrough(score, scores[at], other);
        NewerTotal(score, other);
      }
    }
    forall i | 0 <= i < |scores| && AddressOf(scores[i]) == AddressOf(score)
      ensures Newer(score, more[i])
    {
      assert scores[i] in scores;
      NewerThrough(score, scores[at], scores[i]);
    }
  }

  lemma FirstWins(scores: seq<Score>, score: Score)
    requires forall i :: 0 <= i < |scores| ==> AddressOf(scores[i]) != AddressOf(score)
    ensures WinnerAt(scores + [score], |scores|)
  {
    hide Newer;
    NewerTotal(score, score);
  }

  predicate Tops(scores: seq<Score>, one: Score, other: Score) {
    && one in scores && other in scores && AddressOf(one) == AddressOf(other)
    && Unbeaten(scores, one) && Unbeaten(scores, other)
  }

  /** An address's unbeaten scores are all the same score. */
  ghost predicate TopsAgree(scores: seq<Score>) {
    forall one, other :: Tops(scores, one, other) ==> one == other
  }

  /** The winner at `i` and the one another order of the log has at `j` are of one address. */
  ghost predicate Rivals(scores: seq<Score>, other: seq<Score>, i: nat, j: nat) {
    && multiset(other) == multiset(scores) && WinnerAt(scores, i) && WinnerAt(other, j)
    && AddressOf(scores[i]) == AddressOf(other[j])
  }

  ghost predicate OrderFree(scores: seq<Score>) {
    forall other: seq<Score>, i: nat, j: nat :: Rivals(scores, other, i, j) ==> scores[i] == other[j]
  }

  /** Which score wins does not depend on the order of the log exactly when no address has two different scores at the
      top rank: ties go to the one that comes first. */
  lemma WinnersIgnoreOrder(scores: seq<Score>)
    ensures OrderFree(scores) <==> TopsAgree(scores)
  {
    hide Unbeaten;
    if TopsAgree(scores) {
      forall other: seq<Score>, i: nat, j: nat | Rivals(scores, other, i, j)
        ensures scores[i] == other[j]
      {
        assert other[j] in multiset(other);
        SameUnbeaten(scores, other, other[j]);
        assert Tops(scores, scores[i], other[j]);
      }
    } else {
      var one, other :| Tops(scores, one, other) && one != other;
      var at := SomeWinner(scores, one);
      if scores[at] != one {
        Refutes(scores, at, one);
      } else {
        Refutes(scores, at, other);
      }
    }
  }

  /** Put first, another unbeaten score of the address wins. */
  lemma Refutes(scores: seq<Score>, at: nat, other: Score)
    requires WinnerAt(scores, at) && other in scores && Unbeaten(scores, other)
             && AddressOf(other) == AddressOf(scores[at])
    requires scores[at] != other
    ensures !OrderFree(scores)
  {
    hide Unbeaten;
    var first := PutFirst(scores, other);
    SameUnbeaten(scores, first, other);
    assert Rivals(scores, first, at, 0);
  }

  lemma SameUnbeaten(scores: seq<Score>, other: seq<Score>, score: Score)
    requires multiset(scores) == multiset(other)
    ensures Unbeaten(scores, score) <==> Unbeaten(other, score)
  {
    hide Newer;
    assert forall s :: s in scores <==> s in multiset(scores);
    assert forall s :: s in other <==> s in multiset(other);
  }

  lemma PutFirst(scores: seq<Score>, score: Score) returns (r: seq<Score>)
    requires score in scores
    ensures multiset(r) == multiset(scores) && |r| == |scores| && r[0] == score
  {
    var i :| 0 <= i < |scores| && scores[i] == score;
    r := [score] + scores[..i] + scores[i + 1..];
    assert scores == scores[..i] + [score] + scores[i + 1..];
  }

  /** An address with an unbeaten score has a winner. */
  lemma SomeWinner(scores: seq<Score>, score: Score) returns (at: nat)
    requires score in scores && Unbeaten(scores, score)
    ensures WinnerAt(scores, at) && AddressOf(scores[at]) == AddressOf(score)
  {
    hide Newer;
    at :| at < |scores| && scores[at] == score;
    while exists i :: 0 <= i < at && AddressOf(scores[i]) == AddressOf(scores[at]) && !Newer(scores[at], scores[i])
      invariant at < |scores| && AddressOf(scores[at]) == AddressOf(score) && Unbeaten(scores, scores[at])
      decreases at
    {
      var i :| 0 <= i < at && AddressOf(scores[i]) == AddressOf(scores[at]) && !Newer(scores[at], scores[i]);
      UnbeatenToo(scores, scores[at], scores[i]);
      at := i;
    }
  }

  lemma UnbeatenToo(scores: seq<Score>, score: Score, equal: Score)
    requires Unbeaten(scores, score) && equal in scores && AddressOf(equal) == AddressOf(score) && !Newer(score, equal)
    ensures Unbeaten(scores, equal)
  {
    hide Newer;
    forall other | other in scores && AddressOf(other) == AddressOf(equal)
      ensures !Newer(other, equal)
    {
      if Newer(other, equal) {
        NewerTotal(equal, score);
        NewerThrough(other, equal, score);
      }
    }
  }

  // ---------------------------------------------------------------- what moved

  function NumberOf(value: ScoreValue): Option<real> {
    match value
    case Numeric(number) => Some(number)
    case Truth(truth) => Some(if truth then 1.0 else 0.0)
    case Label(_) => None
  }

  datatype Movement = Improved | Regressed | Unchanged | Changed

  function MovementOf(before: ScoreValue, after: ScoreValue): Movement {
    var from, to := NumberOf(before), NumberOf(after);
    if from.Some? && to.Some? then
      if to.value > from.value then Improved else if to.value < from.value then Regressed else Unchanged
    else if before == after then Unchanged else Changed
  }

  /** Labels are unchanged exactly when they are the same value, in whatever order their members were written. */
  lemma LabelsMove(before: Json, after: Json, from: HeldJson, to: HeldJson)
    requires Keyed(before) && Keyed(after) && from == Ordered(before) && to == Ordered(after)
    ensures MovementOf(Label(from), Label(to)) == (if Equivalent(before, after) then Unchanged else Changed)
  {
    OrderedIdentifies(before, after);
  }

  datatype Diff = Diff(improved: set<string>, regressed: set<string>, same: nat, changed: set<string>,
                       onlyBase: set<string>, onlyCandidate: set<string>)

  type Side = map<string, ScoreValue>

  /** The examples on both sides that moved this way. */
  function Moved(base: Side, candidate: Side, movement: Movement): set<string> {
    set example | example in base && example in candidate && MovementOf(base[example], candidate[example]) == movement
  }

  function DiffOf(base: Side, candidate: Side): Diff {
    Diff(Moved(base, candidate, Improved), Moved(base, candidate, Regressed), |Moved(base, candidate, Unchanged)|,
         Moved(base, candidate, Changed), base.Keys - candidate.Keys, candidate.Keys - base.Keys)
  }

  /** The examples of the base that are done with, by what became of them. */
  datatype Sorting = Sorting(improved: set<string>, regressed: set<string>, steady: set<string>, changed: set<string>,
                             onlyBase: set<string>)

  function Put(sorting: Sorting, movement: Movement, example: string): Sorting {
    match movement
    case Improved => sorting.(improved := sorting.improved + {example})
    case Regressed => sorting.(regressed := sorting.regressed + {example})
    case Unchanged => sorting.(steady := sorting.steady + {example})
    case Changed => sorting.(changed := sorting.changed + {example})
  }

  ghost predicate SortedOut(base: Side, candidate: Side, pending: set<string>, s: Sorting) {
    && s.improved == Moved(base, candidate, Improved) - pending
    && s.regressed == Moved(base, candidate, Regressed) - pending
    && s.steady == Moved(base, candidate, Unchanged) - pending && s.changed == Moved(base, candidate, Changed) - pending
    && s.onlyBase == base.Keys - candidate.Keys - pending
  }

  method DiffName(base: Side, candidate: Side) returns (diff: Diff)
    ensures diff == DiffOf(base, candidate)
    ensures ShowsGains(base, candidate, diff)
  {
    DiffShowsGains(base, candidate);
    var sorting := Sorting({}, {}, {}, {}, {});
    var unmoved := 0;
    var pending := base.Keys;
    NoneSorted(base, candidate);
    hide *;
    while pending != {}
      invariant pending <= base.Keys && unmoved == |sorting.steady| && SortedOut(base, candidate, pending, sorting)
      decreases |pending|
    {
      var example :| example in pending;
      sorting, unmoved := SortOne(base, candidate, pending, sorting, unmoved, example);
      pending := pending - {example};
    }
    AllSorted(base, candidate, sorting);
    var onlyCandidate := set example | example in candidate && example !in base;
    diff := Diff(sorting.improved, sorting.regressed, unmoved, sorting.changed, sorting.onlyBase, onlyCandidate);
    DiffIs(base, candidate, diff);
  }

  method SortOne(base: Side, candidate: Side, ghost pending: set<string>, sorting: Sorting, unmoved: nat,
                 example: string)
    returns (r: Sorting, n: nat)
    requires SortedOut(base, candidate, pending, sorting) && unmoved == |sorting.steady|
    requires example in pending && example in base
    ensures SortedOut(base, candidate, pending - {example}, r) && n == |r.steady|
  {
    hide SortedOut, MovementOf;
    if example !in candidate {
      OnlyInBase(base, candidate, pending, sorting, example);
      r, n := sorting.(onlyBase := sorting.onlyBase + {example}), unmoved;
    } else {
      var movement := MovementOf(base[example], candidate[example]);
      InBoth(base, candidate, pending, sorting, example);
      r := Put(sorting, movement, example);
      n := if movement == Unchanged then unmoved + 1 else unmoved;
    }
  }

  lemma DiffIs(base: Side, candidate: Side, diff: Diff)
    requires diff.onlyCandidate == set example | example in candidate && example !in base
    requires diff.onlyBase == base.Keys - candidate.Keys && diff.same == |Moved(base, candidate, Unchanged)|
    requires diff.improved == Moved(base, candidate, Improved) && diff.regressed == Moved(base, candidate, Regressed)
    requires diff.changed == Moved(base, candidate, Changed)
    ensures diff == DiffOf(base, candidate)
  {
    hide Moved;
    assert diff.onlyCandidate == candidate.Keys - base.Keys;
  }

  lemma NoneSorted(base: Side, candidate: Side)
    ensures SortedOut(base, candidate, base.Keys, Sorting({}, {}, {}, {}, {}))
  {
  }

  lemma InBoth(base: Side, candidate: Side, pending: set<string>, s: Sorting, example: string)
    requires SortedOut(base, candidate, pending, s) && example in pending && example in base && example in candidate
    ensures SortedOut(base, candidate, pending - {example},
                      Put(s, MovementOf(base[example], candidate[example]), example))
    ensures example !in s.steady
  {
    hide MovementOf;
  }

  lemma OnlyInBase(base: Side, candidate: Side, pending: set<string>, s: Sorting, example: string)
    requires SortedOut(base, candidate, pending, s) && example in pending && example in base && example !in candidate
    ensures SortedOut(base, candidate, pending - {example}, s.(onlyBase := s.onlyBase + {example}))
  {
    hide MovementOf;
  }

  lemma AllSorted(base: Side, candidate: Side, s: Sorting)
    requires SortedOut(base, candidate, {}, s)
    ensures s == Sorting(Moved(base, candidate, Improved), Moved(base, candidate, Regressed),
                         Moved(base, candidate, Unchanged), Moved(base, candidate, Changed), base.Keys - candidate.Keys)
  {
    hide Moved;
  }

  /** Every example of either side is accounted for once. */
  lemma DiffAddsUp(base: Side, candidate: Side)
    ensures var d := DiffOf(base, candidate);
            && |base.Keys| == |d.improved| + |d.regressed| + d.same + |d.changed| + |d.onlyBase|
            && |candidate.Keys| == |d.improved| + |d.regressed| + d.same + |d.changed| + |d.onlyCandidate|
  {
    FourWays(base, candidate);
    hide Moved;
    FourAdd(Moved(base, candidate, Improved), Moved(base, candidate, Regressed), Moved(base, candidate, Unchanged),
            Moved(base, candidate, Changed));
    Parts(base.Keys, candidate.Keys);
    Parts(candidate.Keys, base.Keys);
    assert candidate.Keys * base.Keys == base.Keys * candidate.Keys;
  }

  lemma FourAdd(a: set<string>, b: set<string>, c: set<string>, d: set<string>)
    requires a * b == {} && (a + b) * c == {} && (a + b + c) * d == {}
    ensures |a + b + c + d| == |a| + |b| + |c| + |d|
  {
    Adds(a, b);
    Adds(a + b, c);
    Adds(a + b + c, d);
  }

  lemma Parts(one: set<string>, other: set<string>)
    ensures |one| == |one * other| + |one - other|
  {
    Adds(one * other, one - other);
    assert one == one * other + (one - other);
  }

  lemma FourWays(base: Side, candidate: Side)
    ensures var up, down := Moved(base, candidate, Improved), Moved(base, candidate, Regressed);
            var steady, changed := Moved(base, candidate, Unchanged), Moved(base, candidate, Changed);
            && up + down + steady + changed == base.Keys * candidate.Keys
            && up * down == {} && (up + down) * steady == {} && (up + down + steady) * changed == {}
  {
    hide MovementOf;
  }

  lemma Adds(one: set<string>, other: set<string>)
    requires one * other == {}
    ensures |one + other| == |one| + |other|
  {
  }

  function Mirrored(movement: Movement): Movement {
    match movement
    case Improved => Regressed
    case Regressed => Improved
    case Unchanged => Unchanged
    case Changed => Changed
  }

  lemma MovementMirrors(one: ScoreValue, other: ScoreValue)
    ensures MovementOf(other, one) == Mirrored(MovementOf(one, other))
  {
  }

  lemma MovedMirrors(base: Side, candidate: Side, movement: Movement)
    ensures Moved(candidate, base, Mirrored(movement)) == Moved(base, candidate, movement)
  {
    hide MovementOf;
    forall example | example in base && example in candidate
      ensures MovementOf(candidate[example], base[example]) == Mirrored(movement)
              <==> MovementOf(base[example], candidate[example]) == movement
    {
      MovementMirrors(base[example], candidate[example]);
    }
  }

  /** Comparing the other way round swaps what improved with what regressed, and the two sides. */
  lemma DiffMirrors(base: Side, candidate: Side)
    ensures var d := DiffOf(base, candidate);
            DiffOf(candidate, base) == Diff(d.regressed, d.improved, d.same, d.changed, d.onlyCandidate, d.onlyBase)
  {
    MovedMirrors(base, candidate, Improved);
    MovedMirrors(base, candidate, Regressed);
    MovedMirrors(base, candidate, Unchanged);
    MovedMirrors(base, candidate, Changed);
  }

  /** The same number, or without one the same value. */
  predicate SameValue(one: ScoreValue, other: ScoreValue) {
    NumberOf(one) == NumberOf(other) && (NumberOf(one).None? ==> one == other)
  }

  /** Nothing moved exactly when both sides score the same examples the same. */
  lemma NothingMoved(base: Side, candidate: Side)
    ensures DiffOf(base, candidate).same == |base.Keys| == |candidate.Keys| <==>
            base.Keys == candidate.Keys
            && forall example :: example in base ==> SameValue(base[example], candidate[example])
  {
    var steady := Moved(base, candidate, Unchanged);
    assert steady <= base.Keys && steady <= candidate.Keys;
    SameSize(steady, base.Keys);
    SameSize(steady, candidate.Keys);
    forall example | example in base && example in candidate
      ensures example in steady <==> SameValue(base[example], candidate[example])
    {
    }
  }

  lemma SameSize(part: set<string>, whole: set<string>)
    requires part <= whole
    ensures |part| == |whole| <==> part == whole
  {
    if part != whole {
      var extra :| extra in whole && extra !in part;
      Adds(part, whole - part);
      assert whole == part + (whole - part) && extra in whole - part;
    }
  }

  // ---------------------------------------------------------------- which way is better

  /** What a score is worth where it counts as a number: a true is worth one. */
  function Worth(value: ScoreValue): real {
    match value
    case Numeric(number) => number
    case Truth(truth) => if truth then 1.0 else 0.0
    case Label(_) => 0.0
  }

  /** The examples that both sides score with a number or a truth. */
  function Shared(base: Side, candidate: Side): set<string> {
    set e | e in base && e in candidate && !base[e].Label? && !candidate[e].Label?
  }

  /** What a side's scores of some examples add up to. */
  ghost function Total(examples: set<string>, side: Side): real
    requires examples <= side.Keys
    decreases |examples|
  {
    if examples == {} then 0.0
    else
      var e :| e in examples;
      Worth(side[e]) + Total(examples - {e}, side)
  }

  lemma {:induction false} TotalTakes(examples: set<string>, side: Side, e: string)
    requires examples <= side.Keys && e in examples
    ensures Total(examples, side) == Worth(side[e]) + Total(examples - {e}, side)
    decreases |examples|
  {
    hide Worth;
    var first :| first in examples && Total(examples, side) == Worth(side[first]) + Total(examples - {first}, side);
    if first != e {
      TotalTakes(examples - {first}, side, e);
      TotalTakes(examples - {e}, side, first);
      assert examples - {first} - {e} == examples - {e} - {first};
    }
  }

  lemma {:induction false} TotalsCompare(examples: set<string>, low: Side, high: Side)
    requires examples <= low.Keys && examples <= high.Keys
    requires forall e :: e in examples ==> Worth(low[e]) <= Worth(high[e])
    ensures Total(examples, low) <= Total(examples, high)
    ensures Total(examples, low) < Total(examples, high) <==>
            exists e :: e in examples && Worth(low[e]) < Worth(high[e])
    decreases |examples|
  {
    hide Worth;
    if examples != {} {
      var e :| e in examples;
      TotalTakes(examples, low, e);
      TotalTakes(examples, high, e);
      TotalsCompare(examples - {e}, low, high);
      if x :| x in examples && Worth(low[x]) < Worth(high[x]) {
        assert x == e || x in examples - {e};
      }
    }
  }

  /** The lists point the way the numbers went. With nothing regressed the candidate's numbers add up to at least the
      base's, and to more exactly when something improved; and the other way round. */
  ghost predicate ShowsGains(base: Side, candidate: Side, diff: Diff) {
    var shared := Shared(base, candidate);
    var before, after := Total(shared, base), Total(shared, candidate);
    && diff.improved <= shared && diff.regressed <= shared
    && (diff.regressed == {} ==> before <= after && (before < after <==> diff.improved != {}))
    && (diff.improved == {} ==> after <= before && (after < before <==> diff.regressed != {}))
    && (forall e :: e in base && e in candidate && base[e] == Truth(false) && candidate[e] == Truth(true) ==>
          e in diff.improved)
  }

  lemma MovesByWorth(base: Side, candidate: Side, e: string)
    requires e in base && e in candidate
    ensures var movement := MovementOf(base[e], candidate[e]);
            && (movement == Improved <==> e in Shared(base, candidate) && Worth(base[e]) < Worth(candidate[e]))
            && (movement == Regressed <==> e in Shared(base, candidate) && Worth(candidate[e]) < Worth(base[e]))
  {
  }

  lemma DiffShowsGains(base: Side, candidate: Side)
    ensures ShowsGains(base, candidate, DiffOf(base, candidate))
  {
    var shared, diff := Shared(base, candidate), DiffOf(base, candidate);
    forall e | e in base && e in candidate
      ensures e in diff.improved <==> e in shared && Worth(base[e]) < Worth(candidate[e])
      ensures e in diff.regressed <==> e in shared && Worth(candidate[e]) < Worth(base[e])
    {
      MovesByWorth(base, candidate, e);
    }
    assert diff.improved <= shared && diff.regressed <= shared;
    if diff.regressed == {} {
      TotalsCompare(shared, base, candidate);
      NoneOrSome(diff.improved);
    }
    if diff.improved == {} {
      TotalsCompare(shared, candidate, base);
      NoneOrSome(diff.regressed);
    }
  }

  lemma NoneOrSome(examples: set<string>)
    ensures examples != {} <==> exists e :: e in examples
  {
  }
}

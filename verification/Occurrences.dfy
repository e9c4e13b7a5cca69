/** The streaming occurrence count of `src/erasure.rs` (`count_occurrences`, `count_in`): over any split of a file into
    pieces it counts every occurrence in the whole file exactly once. */
module Occurrences {
  import opened Common

  // ---------------------------------------------------------------- what is counted

  predicate OccursAt(haystack: Bytes, needle: Bytes, i: nat) {
    i + |needle| <= |haystack| && haystack[i..i + |needle|] == needle
  }

  /** Occurrences that start before `k`, overlapping ones included. */
  function Starting(haystack: Bytes, needle: Bytes, k: nat): nat {
    if k == 0 then 0 else Starting(haystack, needle, k - 1) + if OccursAt(haystack, needle, k - 1) then 1 else 0
  }

  /** Every place the needle occurs. An empty needle occurs nowhere. */
  function Occurrences(haystack: Bytes, needle: Bytes): nat {
    if needle == [] then 0 else Starting(haystack, needle, |haystack|)
  }

  function Total(haystack: Bytes, needles: seq<Bytes>): nat {
    if needles == [] then 0
    else Total(haystack, needles[..|needles| - 1]) + Occurrences(haystack, needles[|needles| - 1])
  }

  lemma {:induction false} StartingPast(haystack: Bytes, needle: Bytes, first: nat, last: nat)
    requires first <= last && forall i :: first <= i < last ==> !OccursAt(haystack, needle, i)
    ensures Starting(haystack, needle, last) == Starting(haystack, needle, first)
    decreases last
  {
    if first < last {
      StartingPast(haystack, needle, first, last - 1);
    }
  }

  /** The first occurrence at or after `from`. */
  method Position(haystack: Bytes, needle: Bytes, from: nat) returns (r: Option<nat>)
    requires from + |needle| <= |haystack|
    ensures r.Some? ==> from <= r.value && OccursAt(haystack, needle, r.value)
                        && forall i :: from <= i < r.value ==> !OccursAt(haystack, needle, i)
    ensures r.None? ==> forall i :: from <= i ==> !OccursAt(haystack, needle, i)
  {
    var at := from;
    while at + |needle| <= |haystack|
      invariant from <= at && forall i :: from <= i < at ==> !OccursAt(haystack, needle, i)
    {
      if haystack[at..at + |needle|] == needle {
        return Some(at);
      }
      at := at + 1;
    }
    r := None;
  }

  method CountIn(haystack: Bytes, needle: Bytes) returns (count: nat)
    ensures count == Occurrences(haystack, needle)
  {
    count := 0;
    if needle == [] || |haystack| < |needle| {
      if needle != [] {
        StartingPast(haystack, needle, 0, |haystack|);
      }
      return;
    }
    var from := 0;
    while from + |needle| <= |haystack|
      invariant from <= |haystack| && count == Starting(haystack, needle, from)
    {
      var found := Position(haystack, needle, from);
      if found.None? {
        StartingPast(haystack, needle, from, |haystack|);
        return;
      }
      StartingPast(haystack, needle, from, found.value);
      count := count + 1;
      from := found.value + 1;
    }
    StartingPast(haystack, needle, from, |haystack|);
  }

  // ---------------------------------------------------------------- across a cut

  lemma OccursShifted(front: Bytes, back: Bytes, needle: Bytes, i: nat)
    ensures OccursAt(front + back, needle, |front| + i) <==> OccursAt(back, needle, i)
  {
    if i + |needle| <= |back| {
      assert (front + back)[|front| + i..|front| + i + |needle|] == back[i..i + |needle|];
    }
  }

  /** Occurrences starting past `front` are the occurrences in what follows it. */
  lemma {:induction false} StartingSplit(front: Bytes, back: Bytes, needle: Bytes, k: nat)
    ensures Starting(front + back, needle, |front| + k)
            == Starting(front + back, needle, |front|) + Starting(back, needle, k)
    decreases k
  {
    if k > 0 {
      StartingSplit(front, back, needle, k - 1);
      OccursShifted(front, back, needle, k - 1);
    }
  }

  /** An occurrence starting in the front ends inside what is already there, when that is within a byte of
      its length. */
  lemma {:induction false} StartingSame(front: Bytes, seen: Bytes, next: Bytes, needle: Bytes, k: nat)
    requires k <= |front| && |needle| <= |seen| + 1
    ensures Starting(front + seen + next, needle, k) == Starting(front + seen, needle, k)
    decreases k
  {
    if k > 0 {
      StartingSame(front, seen, next, needle, k - 1);
      assert (front + seen + next)[k - 1..k - 1 + |needle|] == (front + seen)[k - 1..k - 1 + |needle|];
    }
  }

  /** What a read adds to a needle's count: its occurrences in the carry and the read, less those in the carry. */
  lemma OccurrencesNext(front: Bytes, carry: Bytes, next: Bytes, needle: Bytes)
    requires front == [] || |needle| <= |carry| + 1
    ensures Occurrences(front + carry, needle) >= Occurrences(carry, needle)
    ensures Occurrences(front + carry + next, needle)
            == Occurrences(front + carry, needle) - Occurrences(carry, needle) + Occurrences(carry + next, needle)
  {
    if needle != [] {
      StartingSplit(front, carry, needle, |carry|);
      StartingSplit(front, carry + next, needle, |carry + next|);
      assert front + (carry + next) == front + carry + next;
      if front != [] {
        StartingSame(front, carry, next, needle, |front|);
      }
    }
  }

  predicate AllWithin(needles: seq<Bytes>, length: nat) {
    forall i :: 0 <= i < |needles| ==> |needles[i]| <= length
  }

  lemma {:induction false} TotalNext(front: Bytes, carry: Bytes, next: Bytes, needles: seq<Bytes>)
    requires front == [] || AllWithin(needles, |carry| + 1)
    ensures Total(front + carry, needles) >= Total(carry, needles)
    ensures Total(front + carry + next, needles)
            == Total(front + carry, needles) - Total(carry, needles) + Total(carry + next, needles)
  {
    if needles != [] {
      var n := |needles| - 1;
      TotalNext(front, carry, next, needles[..n]);
      OccurrencesNext(front, carry, next, needles[n]);
    }
  }

  // ---------------------------------------------------------------- the stream

  function Joined(pieces: seq<Bytes>): Bytes {
    if pieces == [] then [] else Joined(pieces[..|pieces| - 1]) + pieces[|pieces| - 1]
  }

  /** The last `n` bytes, or all there are. */
  function Tail(bytes: Bytes, n: nat): Bytes {
    var keep := Min(n, |bytes|);
    bytes[|bytes| - keep..]
  }

  method Longest(needles: seq<Bytes>) returns (longest: nat)
    ensures AllWithin(needles, longest)
    ensures longest == 0 || exists i :: 0 <= i < |needles| && |needles[i]| == longest
  {
    longest := 0;
    for i := 0 to |needles|
      invariant AllWithin(needles[..i], longest)
      invariant longest == 0 || exists k :: 0 <= k < i && |needles[k]| == longest
    {
      longest := Max(longest, |needles[i]|);
    }
    assert needles[..|needles|] == needles;
  }

  lemma {:induction false} TotalOfNothing(haystack: Bytes, needles: seq<Bytes>)
    requires AllWithin(needles, 0) || haystack == []
    ensures Total(haystack, needles) == 0
  {
    if needles != [] {
      TotalOfNothing(haystack, needles[..|needles| - 1]);
    }
  }

  /** Takes the carry's occurrences off the running count. The subtraction saturates in the code and never needs to. */
  method Uncount(count: nat, carry: Bytes, needles: seq<Bytes>) returns (left: nat)
    requires count >= Total(carry, needles)
    ensures left == count - Total(carry, needles)
  {
    left := count;
    for i := 0 to |needles|
      invariant Total(carry, needles[..i]) <= Total(carry, needles) && left == count - Total(carry, needles[..i])
    {
      TotalGrows(carry, needles, i);
      var inCarry := CountIn(carry, needles[i]);
      left := SaturatingSub(left, inCarry);
    }
    assert needles[..|needles|] == needles;
  }

  lemma {:induction false} TotalGrows(haystack: Bytes, needles: seq<Bytes>, i: nat)
    requires i < |needles|
    ensures Total(haystack, needles[..i + 1]) == Total(haystack, needles[..i]) + Occurrences(haystack, needles[i])
    ensures Total(haystack, needles[..i + 1]) <= Total(haystack, needles)
    decreases |needles| - i
  {
    assert needles[..i + 1][..i] == needles[..i];
    if i + 1 < |needles| {
      TotalGrows(haystack, needles, i + 1);
    } else {
      assert needles[..i + 1] == needles;
    }
  }

  method CountAll(count: nat, window: Bytes, needles: seq<Bytes>) returns (more: nat)
    ensures more == count + Total(window, needles)
  {
    more := count;
    for i := 0 to |needles|
      invariant more == count + Total(window, needles[..i])
    {
      assert needles[..i + 1][..i] == needles[..i];
      var inWindow := CountIn(window, needles[i]);
      more := more + inWindow;
    }
    assert needles[..|needles|] == needles;
  }

  /** What reading one more piece makes of the count and the carry. */
  lemma PieceRead(pieces: seq<Bytes>, i: nat, carry: Bytes, longest: nat, needles: seq<Bytes>)
    requires i < |pieces| && longest > 0 && AllWithin(needles, longest)
    requires carry == Tail(Joined(pieces[..i]), longest - 1)
    ensures var before, after := Joined(pieces[..i]), Joined(pieces[..i + 1]); var window := carry + pieces[i];
            && Total(before, needles) >= Total(carry, needles)
            && Total(after, needles) == Total(before, needles) - Total(carry, needles) + Total(window, needles)
            && Tail(after, longest - 1) == Tail(window, longest - 1)
  {
    hide Total, AllWithin, Joined, Tail;
    var front := TailSplit(Joined(pieces[..i]), longest - 1);
    JoinedNext(pieces, i);
    Regroup(front, carry, pieces[i]);
    assert front == [] || AllWithin(needles, |carry| + 1);
    TotalNext(front, carry, pieces[i], needles);
    TailOfEnd(front, carry + pieces[i], longest - 1);
  }

  lemma TailSplit(seen: Bytes, n: nat) returns (front: Bytes)
    ensures seen == front + Tail(seen, n) && (front == [] || |Tail(seen, n)| == n)
  {
    front := seen[..|seen| - |Tail(seen, n)|];
  }

  lemma JoinedNext(pieces: seq<Bytes>, i: nat)
    requires i < |pieces|
    ensures Joined(pieces[..i + 1]) == Joined(pieces[..i]) + pieces[i]
  {
    assert pieces[..i + 1][..i] == pieces[..i];
  }

  lemma NothingJoined()
    ensures Joined([]) == []
  {
  }

  lemma TailOfEnd(front: Bytes, window: Bytes, n: nat)
    requires front == [] || |window| >= n
    ensures Tail(front + window, n) == Tail(window, n)
  {
  }

  /** The count over a file read in any non-empty pieces; a missing file holds nothing. */
  method CountOccurrences(file: Option<seq<Bytes>>, needles: seq<Bytes>) returns (count: nat)
    requires file.Some? ==> forall i :: 0 <= i < |file.value| ==> file.value[i] != []
    ensures count == if file.None? then 0 else Total(Joined(file.value), needles)
  {
    hide Total, Occurrences, Joined, AllWithin;
    assert file.Some? ==> Joined(file.value[..0]) == [] by { NothingJoined(); }
    var longest := Longest(needles);
    if longest == 0 {
      if file.Some? {
        TotalOfNothing(Joined(file.value), needles);
      }
      return 0;
    }
    if file.None? {
      return 0;
    }
    var pieces := file.value;
    count := 0;
    var carry: Bytes := [];
    TotalOfNothing([], needles);
    for i := 0 to |pieces|
      invariant carry == Tail(Joined(pieces[..i]), longest - 1)
      invariant count == Total(Joined(pieces[..i]), needles)
    {
      PieceRead(pieces, i, carry, longest, needles);
      count := Uncount(count, carry, needles);
      var window := carry + pieces[i];
      count := CountAll(count, window, needles);
      var keep := Min(SaturatingSub(longest, 1), |window|);
      carry := window[|window| - keep..];
    }
    assert pieces[..|pieces|] == pieces;
  }
}

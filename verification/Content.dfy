/** The content index of `src/content.rs`: tokens are the lowercased maximal runs of letters and digits, and a Bloom
    filter built from texts never rules out a query the texts match, whatever the hash, the filter's size or the
    tokens' length. */
module Content {
  import opened Common

  const MAX_TOKEN_LEN: nat := 40
  const HASH_COUNT: nat := 4
  const MODULUS: nat := 0x1_0000_0000_0000_0000

  // ---------------------------------------------------------------- tokens

  predicate IsUpper(b: Byte) { 65 <= b <= 90 }

  predicate IsAlnum(b: Byte) { 48 <= b <= 57 || IsUpper(b) || 97 <= b <= 122 }

  function Lower(b: Byte): Byte { if IsUpper(b) then b + 32 else b }

  /** The letters and digits of ASCII, and the small letter of each capital. */
  lemma AsciiLettersAndDigits(b: Byte)
    ensures var c := b as char;
            && (IsAlnum(b) <==> '0' <= c <= '9' || 'A' <= c <= 'Z' || 'a' <= c <= 'z')
            && Lower(b) as char == if 'A' <= c <= 'Z' then c - 'A' + 'a' else c
  {
  }

  function Lowered(run: Bytes): Bytes { seq(|run|, i requires 0 <= i < |run| => Lower(run[i])) }

  datatype Run = Run(start: nat, end: nat)

  /** Letters and digits that neither begin later nor end earlier than they could. */
  predicate IsRun(text: Bytes, run: Run) {
    && run.start < run.end <= |text| && (forall i :: run.start <= i < run.end ==> IsAlnum(text[i]))
    && (run.start == 0 || !IsAlnum(text[run.start - 1])) && (run.end == |text| || !IsAlnum(text[run.end]))
  }

  /** Every maximal run that ends by `to`, in order. */
  ghost predicate AllRuns(text: Bytes, runs: seq<Run>, to: nat) {
    && (forall k :: 0 <= k < |runs| ==> IsRun(text, runs[k]) && runs[k].end <= to)
    && (forall k :: 0 < k < |runs| ==> runs[k - 1].end < runs[k].start)
    && (forall run: Run :: IsRun(text, run) && run.end <= to ==> run in runs)
  }

  function TokensOfRuns(text: Bytes, runs: seq<Run>): seq<Bytes>
    requires forall k :: 0 <= k < |runs| ==> runs[k].start <= runs[k].end <= |text|
  {
    seq(|runs|, k requires 0 <= k < |runs| => Lowered(text[runs[k].start..runs[k].end]))
  }

  /** The last run of a text that ends before `end`, scanning as the tokenizer does. */
  function RunsTo(text: Bytes, index: nat): (r: seq<Run>)
    requires index <= |text|
    ensures forall k :: 0 <= k < |r| ==> r[k].start < r[k].end <= index
  {
    if index == 0 then []
    else if !IsAlnum(text[index - 1]) then RunsTo(text, index - 1)
    else if index < |text| && IsAlnum(text[index]) then RunsTo(text, index - 1)
    else RunsTo(text, index - 1) + [Run(RunStart(text, index), index)]
  }

  /** Where the letters and digits just before `end` begin. */
  function RunStart(text: Bytes, end: nat): (start: nat)
    requires end <= |text|
    ensures start <= end && (forall i :: start <= i < end ==> IsAlnum(text[i]))
    ensures start == 0 || !IsAlnum(text[start - 1])
    ensures end > 0 && IsAlnum(text[end - 1]) ==> start < end
  {
    if end == 0 || !IsAlnum(text[end - 1]) then end else RunStart(text, end - 1)
  }

  function Tokens(text: Bytes): seq<Bytes> { TokensOfRuns(text, RunsTo(text, |text|)) }

  lemma RunStartOnce(text: Bytes, run: Run)
    requires IsRun(text, run)
    ensures RunStart(text, run.end) == run.start
  {
  }

  /** The tokens of a text are its maximal runs, all of them, in order. */
  lemma {:induction false} RunsAreAll(text: Bytes, index: nat)
    requires index <= |text|
    ensures AllRuns(text, RunsTo(text, index), index)
  {
    if index == 0 {
      NoRunsYet(text);
    } else {
      hide *;
      RunsAreAll(text, index - 1);
      RunsNext(text, index);
      RunsStep(text, RunsTo(text, index - 1), index, RunsTo(text, index));
    }
  }

  lemma NoRunsYet(text: Bytes)
    ensures AllRuns(text, RunsTo(text, 0), 0)
  {
  }

  lemma RunsStep(text: Bytes, runs: seq<Run>, index: nat, more: seq<Run>)
    requires 0 < index <= |text| && AllRuns(text, runs, index - 1)
    requires var run := Run(RunStart(text, index), index); more == if IsRun(text, run) then runs + [run] else runs
    ensures AllRuns(text, more, index)
  {
    hide RunStart, AllRuns, IsRun;
    if IsRun(text, Run(RunStart(text, index), index)) {
      OneMoreRun(text, runs, index, Run(RunStart(text, index), index));
    } else {
      NoMoreRun(text, runs, index);
    }
  }

  /** A run is added exactly where one ends. */
  lemma RunsNext(text: Bytes, index: nat)
    requires 0 < index <= |text|
    ensures var run := Run(RunStart(text, index), index);
            RunsTo(text, index) == if IsRun(text, run) then RunsTo(text, index - 1) + [run] else RunsTo(text, index - 1)
  {
  }

  lemma EndsEarlier(text: Bytes, index: nat, run: Run)
    requires 0 < index <= |text| && !IsRun(text, Run(RunStart(text, index), index))
    requires IsRun(text, run) && run.end <= index
    ensures run.end <= index - 1
  {
    RunStartOnce(text, run);
  }

  lemma NoMoreRun(text: Bytes, runs: seq<Run>, index: nat)
    requires 0 < index <= |text| && AllRuns(text, runs, index - 1) && !IsRun(text, Run(RunStart(text, index), index))
    ensures AllRuns(text, runs, index)
  {
    hide RunStart, IsRun;
    forall run: Run | IsRun(text, run) && run.end <= index
      ensures run in runs
    {
      EndsEarlier(text, index, run);
    }
  }

  lemma OneMoreRun(text: Bytes, runs: seq<Run>, index: nat, run: Run)
    requires 0 < index <= |text| && AllRuns(text, runs, index - 1) && IsRun(text, run) && run.end == index
    ensures AllRuns(text, runs + [run], index)
  {
    hide RunStart;
    var more := runs + [run];
    forall other: Run | IsRun(text, other) && other.end <= index
      ensures other in more
    {
      if other.end == index {
        RunStartOnce(text, run);
        RunStartOnce(text, other);
        assert more[|runs|] == other;
      } else {
        assert other in runs;
      }
    }
    if runs != [] {
      LaterRun(text, runs[|runs| - 1], run);
    }
    assert forall k :: 0 <= k < |more| ==> IsRun(text, more[k]) && more[k].end <= index;
  }

  lemma LaterRun(text: Bytes, one: Run, other: Run)
    requires IsRun(text, one) && IsRun(text, other) && one.end < other.end
    ensures one.end < other.start
  {
  }

  lemma {:induction false} RunsIgnoreCase(text: Bytes, index: nat)
    requires index <= |text|
    ensures RunsTo(Lowered(text), index) == RunsTo(text, index)
            && RunStart(Lowered(text), index) == RunStart(text, index)
  {
    RunStartIgnoresCase(text, index);
    assert |Lowered(text)| == |text|;
    hide Lowered, IsAlnum, RunStart;
    if index > 0 {
      RunsIgnoreCase(text, index - 1);
      SameKind(text, index - 1);
      if index < |text| {
        SameKind(text, index);
      }
    }
  }

  lemma {:induction false} RunStartIgnoresCase(text: Bytes, end: nat)
    requires end <= |text|
    ensures RunStart(Lowered(text), end) == RunStart(text, end)
  {
    hide Lowered, IsAlnum;
    if end > 0 {
      SameKind(text, end - 1);
      RunStartIgnoresCase(text, end - 1);
    }
  }

  lemma SameKind(text: Bytes, at: nat)
    requires at < |text|
    ensures IsAlnum(Lowered(text)[at]) == IsAlnum(text[at])
  {
  }

  /** Case does not matter: a text and its lowercase have the same tokens. */
  lemma CaseDoesNotMatter(text: Bytes)
    ensures Tokens(Lowered(text)) == Tokens(text)
  {
    RunsIgnoreCase(text, |text|);
    hide RunsTo, RunStart;
    var runs := RunsTo(text, |text|);
    forall k | 0 <= k < |runs|
      ensures Lowered(Lowered(text)[runs[k].start..runs[k].end]) == Lowered(text[runs[k].start..runs[k].end])
    {
      LoweredTwice(text, runs[k]);
    }
    assert TokensOfRuns(Lowered(text), runs) == TokensOfRuns(text, runs);
  }

  lemma LoweredTwice(text: Bytes, run: Run)
    requires run.start <= run.end <= |text|
    ensures Lowered(Lowered(text)[run.start..run.end]) == Lowered(text[run.start..run.end])
  {
    assert Lowered(text)[run.start..run.end] == Lowered(text[run.start..run.end]);
    assert forall b: Byte :: Lower(Lower(b)) == Lower(b);
  }

  /** Inside a run nothing ends. */
  lemma {:induction false} NothingEnds(text: Bytes, start: nat, index: nat)
    requires start < index < |text| && forall i :: start <= i <= index ==> IsAlnum(text[i])
    requires start == 0 || !IsAlnum(text[start - 1])
    ensures RunsTo(text, index) == RunsTo(text, start)
    decreases index
  {
    if index - 1 > start {
      NothingEnds(text, start, index - 1);
    }
  }

  /** A run ends where the scan leaves it. */
  lemma RunEnds(text: Bytes, start: nat, index: nat)
    requires start < index <= |text| && (index == |text| || !IsAlnum(text[index]))
    requires (forall i :: start <= i < index ==> IsAlnum(text[i])) && (start == 0 || !IsAlnum(text[start - 1]))
    ensures RunsTo(text, index) == RunsTo(text, start) + [Run(start, index)]
  {
    RunStartOnce(text, Run(start, index));
    if index - 1 > start {
      NothingEnds(text, start, index - 1);
    }
  }

  lemma NoRunEnds(text: Bytes, index: nat)
    requires index <= |text| && (index < |text| ==> !IsAlnum(text[index]))
    ensures RunsTo(text, Min(index + 1, |text|)) == RunsTo(text, index)
  {
  }

  lemma NothingYet(text: Bytes)
    ensures RunsTo(text, 0) == [] && TokensOfRuns(text, []) == []
  {
  }

  lemma TokensNext(text: Bytes, runs: seq<Run>, run: Run)
    requires forall k :: 0 <= k < |runs| ==> runs[k].start <= runs[k].end <= |text|
    requires run.start <= run.end <= |text|
    ensures TokensOfRuns(text, runs + [run]) == TokensOfRuns(text, runs) + [Lowered(text[run.start..run.end])]
  {
    hide Lowered;
  }

  /** Calls back with every token, lowercased, in order of appearance. */
  method ForEachToken(text: Bytes) returns (tokens: seq<Bytes>)
    ensures tokens == Tokens(text)
  {
    var start: nat, index: nat := 0, 0;
    tokens := [];
    ghost var runs: seq<Run> := [];
    NothingYet(text);
    hide RunsTo, TokensOfRuns, Lowered;
    while index <= |text|
      invariant start <= index <= |text| + 1
      invariant forall i :: start <= i < index ==> i < |text| && IsAlnum(text[i])
      invariant 0 < start <= |text| ==> !IsAlnum(text[start - 1])
      invariant runs == RunsTo(text, Min(start, |text|)) && tokens == TokensOfRuns(text, runs)
      decreases |text| + 1 - index
    {
      if index < |text| && IsAlnum(text[index]) {
        index := index + 1;
      } else {
        if index > start {
          RunEnds(text, start, index);
          TokensNext(text, runs, Run(start, index));
          tokens := tokens + [Lowered(text[start..index])];
          runs := runs + [Run(start, index)];
        }
        NoRunEnds(text, index);
        index := index + 1;
        start := index;
      }
    }
  }

  // ---------------------------------------------------------------- matching

  predicate Contains(texts: seq<Bytes>, token: Bytes) {
    exists i :: 0 <= i < |texts| && token in Tokens(texts[i])
  }

  /** The texts together hold every word of the query, and the query has one. */
  predicate Matching(query: set<Bytes>, texts: seq<Bytes>) {
    query != {} && forall token :: token in query ==> Contains(texts, token)
  }

  /** The distinct words of a query. */
  method ParseQuery(needle: Bytes) returns (query: set<Bytes>)
    ensures forall token :: token in query <==> token in Tokens(needle)
  {
    var tokens := ForEachToken(needle);
    query := set token | token in tokens;
  }

  method Matches(query: set<Bytes>, texts: seq<Bytes>) returns (matches: bool)
    ensures matches <==> Matching(query, texts)
  {
    hide Tokens;
    if query == {} {
      return false;
    }
    var outstanding := query;
    for i := 0 to |texts|
      invariant forall token :: token in outstanding <==> token in query && !Contains(texts[..i], token)
    {
      var tokens := ForEachToken(texts[i]);
      var found := set token | token in tokens;
      outstanding := outstanding - found;
      forall token: Bytes
        ensures Contains(texts[..i + 1], token) <==> Contains(texts[..i], token) || token in Tokens(texts[i])
      {
        OneMoreText(texts, i, token);
      }
      assert forall token :: token in outstanding <==> token in query && !Contains(texts[..i + 1], token);
      if outstanding == {} {
        forall token | token in query
          ensures Contains(texts, token)
        {
          assert token !in outstanding;
          FewerTexts(texts, i + 1, token);
        }
        return true;
      }
    }
    assert texts[..|texts|] == texts;
    matches := outstanding == {};
  }

  lemma OneMoreText(texts: seq<Bytes>, i: nat, token: Bytes)
    requires i < |texts|
    ensures Contains(texts[..i + 1], token) <==> Contains(texts[..i], token) || token in Tokens(texts[i])
  {
    hide Tokens;
    assert texts[..i + 1][i] == texts[i];
    assert forall k :: 0 <= k < i ==> texts[..i + 1][k] == texts[..i][k];
  }

  lemma FewerTexts(texts: seq<Bytes>, n: nat, token: Bytes)
    requires n <= |texts| && Contains(texts[..n], token)
    ensures Contains(texts, token)
  {
    hide Tokens;
    var i :| 0 <= i < n && token in Tokens(texts[..n][i]);
    assert texts[..n][i] == texts[i];
  }

  // ---------------------------------------------------------------- bit positions

  /** The two halves of a 128-bit hash; any function will do. */
  type Hash = Bytes -> (nat, nat)

  predicate Continues(b: Byte) { 128 <= b < 192 }

  /** The last character boundary at or before `end`. */
  function Boundary(token: Bytes, end: nat): (r: nat)
    requires end <= |token|
    ensures r <= end
  {
    if end == 0 || end == |token| || !Continues(token[end]) then end else Boundary(token, end - 1)
  }

  /** As much of a token as goes into its hash: all of it, or what whole characters fit below the cap. */
  function ProbeKey(token: Bytes): Bytes {
    if |token| <= MAX_TOKEN_LEN then token else token[..Boundary(token, MAX_TOKEN_LEN)]
  }

  /** A probe key is its token up to 40 bytes, and of a longer one the most that leaves no character cut: the byte after
      it begins a character, and every one between there and the cap has the top bits 10 of a continuation. */
  lemma ProbeKeyIsWholeCharacters(token: Bytes)
    ensures var key := ProbeKey(token);
            && (|token| <= 40 ==> key == token)
            && (|token| > 40 ==>
                  && |key| <= 40 && key == token[..|key|] && (|key| == 0 || token[|key|] / 64 != 2)
                  && forall i :: |key| < i <= 40 ==> token[i] / 64 == 2)
  {
    if |token| > 40 {
      BoundaryIsLast(token, 40);
    }
  }

  lemma {:induction false} BoundaryIsLast(token: Bytes, end: nat)
    requires end < |token|
    ensures var r := Boundary(token, end);
            && (r == 0 || token[r] / 64 != 2)
            && forall i :: r < i <= end ==> token[i] / 64 == 2
  {
    if end > 0 && Continues(token[end]) {
      BoundaryIsLast(token, end - 1);
    }
  }

  /** Bitwise and. */
  function And(a: nat, b: nat): (r: nat)
    ensures r <= b
    decreases b
  {
    if b == 0 then 0 else (if a % 2 == 1 && b % 2 == 1 then 1 else 0) + 2 * And(a / 2, b / 2)
  }

  /** `high | 1` */
  function Odd(value: nat): nat { if value % 2 == 1 then value else value + 1 }

  /** Where a token's bits go: an arithmetic progression from one half of the digest by the other, masked. */
  function BitPositions(hash: Hash, token: Bytes, bitLen: nat): (r: seq<nat>)
    ensures bitLen == 0 ==> r == []
    ensures forall i :: 0 <= i < |r| ==> r[i] < bitLen
  {
    if bitLen == 0 then []
    else
      var (low, high) := hash(ProbeKey(token));
      seq(HASH_COUNT, i requires 0 <= i < HASH_COUNT =>
        And((low + i * Odd(high) % MODULUS) % MODULUS, bitLen - 1))
  }

  // ---------------------------------------------------------------- the filter

  lemma ProbeKeyOnce(token: Bytes)
    ensures ProbeKey(ProbeKey(token)) == ProbeKey(token)
  {
  }

  ghost predicate IsPowerOfTwo(n: nat) { exists k: nat :: n == PowerOfTwo(k) }

  function PowerOfTwo(k: nat): (n: nat)
    ensures n > 0
  {
    if k == 0 then 1 else 2 * PowerOfTwo(k - 1)
  }

  /** With a power of two of bits the mask is the modulo it stands for. */
  lemma {:induction false} MaskIsModulo(value: nat, k: nat)
    ensures And(value, PowerOfTwo(k) - 1) == value % PowerOfTwo(k)
  {
    hide And, Masks;
    if k == 0 {
      MaskNothing(value);
    } else {
      MaskIsModulo(value / 2, k - 1);
      MasksMeans(value / 2, PowerOfTwo(k - 1));
      MaskDoubles(value, PowerOfTwo(k - 1));
      MasksMeans(value, PowerOfTwo(k));
    }
  }

  predicate Masks(value: nat, size: nat)
    requires size > 0
  {
    And(value, size - 1) == value % size
  }

  lemma MasksMeans(value: nat, size: nat)
    requires size > 0
    ensures Masks(value, size) <==> And(value, size - 1) == value % size
  {
  }

  lemma MaskNothing(value: nat)
    ensures And(value, PowerOfTwo(0) - 1) == value % PowerOfTwo(0)
  {
  }

  lemma MaskDoubles(value: nat, half: nat)
    requires half > 0 && Masks(value / 2, half)
    ensures Masks(value, 2 * half)
  {
    hide And;
    MaskStep(value, half);
    HalvedModulo(value, half);
  }

  lemma MaskStep(value: nat, half: nat)
    requires half > 0
    ensures And(value, 2 * half - 1) == value % 2 + 2 * And(value / 2, half - 1)
  {
    var mask := 2 * half - 1;
    assert mask % 2 == 1 && mask / 2 == half - 1;
  }

  lemma HalvedModulo(value: nat, half: nat)
    requires half > 0
    ensures value % (2 * half) == value % 2 + 2 * (value / 2 % half)
  {
    var quotient := value / 2 / half;
    QuotientIs(value, quotient, 2 * half);
  }

  lemma FourDivides(value: nat, quarter: nat, whole: nat, rest: nat)
    requires quarter > 0 && whole == 4 * quarter && rest == value % whole
    ensures rest % 4 == value % 4
  {
    var quotient := Quotient(value, whole, rest);
    FourTimes(quarter, quotient);
    SameModFour(rest, quarter * quotient);
  }

  lemma Quotient(value: nat, whole: nat, rest: nat) returns (quotient: nat)
    requires whole > 0 && rest == value % whole
    ensures value == whole * quotient + rest
  {
    quotient := value / whole;
  }

  lemma FourTimes(quarter: nat, quotient: nat)
    ensures 4 * quarter * quotient == 4 * (quarter * quotient)
  {
  }

  lemma SameModFour(rest: nat, product: nat)
    ensures (4 * product + rest) % 4 == rest % 4
  {
  }

  lemma AddedModFour(low: nat, a: nat, b: nat)
    requires a % 4 == b % 4
    ensures (low + a) % 4 == (low + b) % 4
  {
  }

  /** In a filter of a power of two of bits, at least four, a token's positions are four different ones: the
      step is odd. */
  lemma PositionsDiffer(hash: Hash, token: Bytes, k: nat, i: nat, j: nat)
    requires k >= 2 && i < j < HASH_COUNT
    ensures var positions := BitPositions(hash, token, PowerOfTwo(k));
            |positions| == HASH_COUNT && positions[i] != positions[j]
  {
    var (low, high) := hash(ProbeKey(token));
    var step := Odd(high);
    PositionModFour(low, step, i, k);
    PositionModFour(low, step, j, k);
    assert (low + i * step) % 4 != (low + j * step) % 4 by {
      OddSteps(low, step, i, j);
    }
  }

  lemma PositionModFour(low: nat, step: nat, i: nat, k: nat)
    requires k >= 2
    ensures And((low + i * step % MODULUS) % MODULUS, PowerOfTwo(k) - 1) % 4 == (low + i * step) % 4
  {
    var product := i * step;
    var sum := (low + product % MODULUS) % MODULUS;
    MaskIsModulo(sum, k);
    assert PowerOfTwo(k) == 4 * PowerOfTwo(k - 2);
    hide *;
    FourDivides(sum, PowerOfTwo(k - 2), PowerOfTwo(k), sum % PowerOfTwo(k));
    FourDivides(low + product % MODULUS, MODULUS / 4, MODULUS, sum);
    FourDivides(product, MODULUS / 4, MODULUS, product % MODULUS);
    AddedModFour(low, product % MODULUS, product);
  }

  lemma OddSteps(low: nat, step: nat, i: nat, j: nat)
    requires i < j < 4 && step % 2 == 1
    ensures (low + i * step) % 4 != (low + j * step) % 4
  {
    if i == 0 {
      if j == 1 {
      } else if j == 2 {
      } else {
      }
    } else if i == 1 {
      if j == 2 {
      } else {
      }
    }
  }

  // ---------------------------------------------------------------- the filter

  /** The probe keys of every token of the texts. */
  function ProbeKeys(texts: seq<Bytes>): set<Bytes> {
    set i, k | 0 <= i < |texts| && 0 <= k < |Tokens(texts[i])| :: ProbeKey(Tokens(texts[i])[k])
  }

  /** Some key of the set would set this position. */
  predicate SetBy(hash: Hash, keys: set<Bytes>, bitLen: nat, position: nat) {
    exists key :: key in keys && position in BitPositions(hash, key, bitLen)
  }

  /** `1 << i` as a byte */
  function Flag(i: nat): bv8
    requires i < 8
  {
    if i == 0 then 1 else if i == 1 then 2 else if i == 2 then 4 else if i == 3 then 8
    else if i == 4 then 16 else if i == 5 then 32 else if i == 6 then 64 else 128
  }

  lemma FlagIsPower(i: nat)
    requires i < 8
    ensures Flag(i) as nat == PowerOfTwo(i)
  {
    assert PowerOfTwo(4) == 16;
  }

  lemma FlagSetsOne(byte: bv8, i: nat, k: nat)
    requires i < 8 && k < 8
    ensures (byte | Flag(i)) & Flag(k) != 0 <==> byte & Flag(k) != 0 || k == i
  {
  }

  class Bloom {
    const bits: array<bv8>

    /** An empty filter of whole bytes. */
    constructor (size: nat)
      ensures fresh(bits) && bits.Length == size / 8
      ensures forall p :: 0 <= p < BitLen() ==> !IsSet(p)
    {
      bits := new bv8[size / 8](_ => 0);
    }

    function BitLen(): nat { bits.Length * 8 }

    predicate IsSet(position: nat)
      requires position < BitLen()
      reads bits
    {
      bits[position / 8] & Flag(position % 8) != 0
    }

    /** The positions a set of keys sets, and no other. */
    ghost predicate Holds(hash: Hash, keys: set<Bytes>)
      reads bits
    {
      forall p: nat :: p < BitLen() ==> (IsSet(p) <==> SetBy(hash, keys, BitLen(), p))
    }

    /** Every position of the token is set. */
    predicate May(hash: Hash, token: Bytes)
      reads bits
    {
      forall p :: p in BitPositions(hash, token, BitLen()) ==> IsSet(p)
    }

    /** No query the texts match is ruled out. */
    ghost predicate Keeps(hash: Hash, texts: seq<Bytes>)
      reads bits
    {
      forall query, token :: Matching(query, texts) && token in query ==> May(hash, token)
    }

    method SetPosition(position: nat)
      requires position < BitLen()
      modifies bits
      ensures forall p: nat :: p < BitLen() ==> (IsSet(p) <==> old(IsSet(p)) || p == position)
    {
      ghost var was := bits[position / 8];
      bits[position / 8] := bits[position / 8] | Flag(position % 8);
      forall p: nat | p < BitLen()
        ensures IsSet(p) <==> old(IsSet(p)) || p == position
      {
        FlagSetsOne(was, position % 8, p % 8);
      }
    }

    method Insert(hash: Hash, token: Bytes)
      modifies bits
      ensures forall p: nat :: p < BitLen() ==>
              (IsSet(p) <==> old(IsSet(p)) || p in BitPositions(hash, token, BitLen()))
    {
      var positions := BitPositions(hash, token, BitLen());
      hide BitPositions, IsSet;
      for i := 0 to |positions|
        invariant forall p: nat :: p < BitLen() ==> (IsSet(p) <==> old(IsSet(p)) || p in positions[..i])
      {
        SetPosition(positions[i]);
        assert positions[..i + 1] == positions[..i] + [positions[i]];
      }
      assert positions[..|positions|] == positions;
    }

    /** An empty filter has no position to find unset. */
    method MayContain(hash: Hash, token: Bytes) returns (may: bool)
      ensures may <==> May(hash, token)
      ensures bits.Length == 0 ==> may
    {
      if bits.Length == 0 {
        return true;
      }
      var positions := BitPositions(hash, token, BitLen());
      hide BitPositions, IsSet;
      for i := 0 to |positions|
        invariant forall k :: 0 <= k < i ==> IsSet(positions[k])
      {
        if !IsSet(positions[i]) {
          return false;
        }
      }
      may := true;
    }

    method MayContainAll(hash: Hash, tokens: seq<Bytes>) returns (may: bool)
      ensures may <==> forall token :: token in tokens ==> May(hash, token)
    {
      hide BitPositions, IsSet, May;
      for i := 0 to |tokens|
        invariant forall k :: 0 <= k < i ==> May(hash, tokens[k])
      {
        var one := MayContain(hash, tokens[i]);
        if !one {
          return false;
        }
      }
      may := true;
    }
  }

  // ---------------------------------------------------------------- building

  const BITS_PER_TOKEN: nat := 8

  function NextPowerOfTwo(n: nat): (r: nat)
  {
    Doubled(1, n)
  }

  function Doubled(from: nat, n: nat): (r: nat)
    requires from > 0
    decreases n - from
  {
    if from >= n then from else Doubled(2 * from, n)
  }

  /** The least power of two from `from` up that is at least `n`. */
  lemma {:induction false} DoubledIsLeast(k: nat, n: nat)
    ensures var r := Doubled(PowerOfTwo(k), n);
            IsPowerOfTwo(r) && n <= r && PowerOfTwo(k) <= r && (r == PowerOfTwo(k) || r < 2 * n)
    decreases n - PowerOfTwo(k)
  {
    if PowerOfTwo(k) < n {
      assert PowerOfTwo(k + 1) == 2 * PowerOfTwo(k);
      DoubledIsLeast(k + 1, n);
    }
  }

  function SizeBits(distinct: nat, minBytes: nat, maxBytes: nat): nat {
    var wanted := NextPowerOfTwo(Max(distinct * BITS_PER_TOKEN, minBytes * 8));
    Max(minBytes * 8, Min(wanted, NextPowerOfTwo(maxBytes * 8)))
  }

  /** A power of two within the bounds: eight bits for every key unless the cap is hit, and never twice what
      was asked. */
  lemma SizeIsPowerOfTwo(distinct: nat, minBytes: nat, maxBytes: nat)
    requires minBytes <= maxBytes
    ensures var r := SizeBits(distinct, minBytes, maxBytes);
            && IsPowerOfTwo(r) && minBytes * 8 <= r
            && (distinct * 8 <= r || (r == NextPowerOfTwo(maxBytes * 8) && maxBytes * 8 <= r))
            && (r == 1 || r < 2 * Max(distinct * 8, minBytes * 8))
  {
    assert PowerOfTwo(0) == 1;
    DoubledIsLeast(0, Max(distinct * BITS_PER_TOKEN, minBytes * 8));
    DoubledIsLeast(0, maxBytes * 8);
  }

  method DistinctProbeKeys(texts: seq<Bytes>) returns (keys: set<Bytes>)
    ensures keys == ProbeKeys(texts)
  {
    hide Tokens, ProbeKey;
    keys := {};
    for i := 0 to |texts|
      invariant keys == ProbeKeys(texts[..i])
    {
      var tokens := ForEachToken(texts[i]);
      var seen := set k | 0 <= k < |tokens| :: ProbeKey(tokens[k]);
      MoreKeys(texts, i, seen);
      keys := keys + seen;
    }
    assert texts[..|texts|] == texts;
  }

  lemma MoreKeys(texts: seq<Bytes>, i: nat, seen: set<Bytes>)
    requires i < |texts| && seen == set k | 0 <= k < |Tokens(texts[i])| :: ProbeKey(Tokens(texts[i])[k])
    ensures ProbeKeys(texts[..i + 1]) == ProbeKeys(texts[..i]) + seen
  {
    hide Tokens, ProbeKey;
    var more, fewer := texts[..i + 1], texts[..i];
    assert more == fewer + [texts[i]];
    forall key | key in ProbeKeys(more)
      ensures key in ProbeKeys(fewer) + seen
    {
      var j, k :| 0 <= j < |more| && 0 <= k < |Tokens(more[j])| && ProbeKey(Tokens(more[j])[k]) == key;
      assert j < i ==> more[j] == fewer[j];
    }
    forall key | key in ProbeKeys(fewer)
      ensures key in ProbeKeys(more)
    {
      var j, k :| 0 <= j < |fewer| && 0 <= k < |Tokens(fewer[j])| && ProbeKey(Tokens(fewer[j])[k]) == key;
      assert more[j] == fewer[j];
    }
    assert more[i] == texts[i];
  }

  /** Every position of every token of the texts is set: building hashes the probe keys, probing the tokens. */
  lemma NeverRulesOut(hash: Hash, texts: seq<Bytes>, token: Bytes, bitLen: nat, position: nat)
    requires Contains(texts, token) && position in BitPositions(hash, token, bitLen)
    ensures SetBy(hash, ProbeKeys(texts), bitLen, position)
  {
    SamePositions(hash, token, bitLen);
    hide Tokens, BitPositions, ProbeKey;
    var i :| 0 <= i < |texts| && token in Tokens(texts[i]);
    var k :| 0 <= k < |Tokens(texts[i])| && Tokens(texts[i])[k] == token;
    assert ProbeKey(token) in ProbeKeys(texts);
  }

  lemma SamePositions(hash: Hash, token: Bytes, bitLen: nat)
    ensures BitPositions(hash, ProbeKey(token), bitLen) == BitPositions(hash, token, bitLen)
  {
    ProbeKeyOnce(token);
  }

  /** A filter over the texts: its bits are those of their probe keys, so no query the texts match is ruled out. */
  method Build(hash: Hash, texts: seq<Bytes>, minBytes: nat, maxBytes: nat) returns (bloom: Bloom)
    requires minBytes <= maxBytes
    ensures fresh(bloom) && fresh(bloom.bits)
            && bloom.bits.Length == SizeBits(|ProbeKeys(texts)|, minBytes, maxBytes) / 8
    ensures bloom.Holds(hash, ProbeKeys(texts)) && bloom.Keeps(hash, texts)
  {
    hide Tokens, BitPositions, Bloom.IsSet, ProbeKeys, SizeBits;
    var keys := DistinctProbeKeys(texts);
    bloom := new Bloom(SizeBits(|keys|, minBytes, maxBytes));
    var left := keys;
    while left != {}
      invariant left <= keys && bloom.Holds(hash, keys - left)
      decreases |left|
    {
      var key :| key in left;
      ghost var done := keys - left;
      bloom.Insert(hash, key);
      left := left - {key};
      assert keys - left == done + {key};
    }
    assert keys - left == keys;
    HoldsKeeps(hash, texts, bloom);
  }

  lemma HoldsKeeps(hash: Hash, texts: seq<Bytes>, bloom: Bloom)
    requires bloom.Holds(hash, ProbeKeys(texts))
    ensures bloom.Keeps(hash, texts)
  {
    hide Tokens, BitPositions, Bloom.IsSet, ProbeKeys;
    forall query, token | Matching(query, texts) && token in query
      ensures bloom.May(hash, token)
    {
      forall p | p in BitPositions(hash, token, bloom.BitLen())
        ensures bloom.IsSet(p)
      {
        NeverRulesOut(hash, texts, token, bloom.BitLen(), p);
      }
    }
  }
}

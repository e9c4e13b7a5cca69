/** The line-per-record logs of the store (`evals.jsonl`, `tombstones.jsonl`, `annotations.jsonl`) and the open that
    heals them: the same loop in `src/evals.rs`, `src/erasure.rs` and `src/annotations.rs`. An append cut at any byte is
    replayed as the appends that were complete, and a healed file opens again to the same records, unchanged. */
module LineLog {
  import opened Common

  const NEWLINE: Byte := 10

  predicate IsSpace(b: Byte) { b == 9 || b == 10 || b == 12 || b == 13 || b == 32 }

  /** White space of ASCII: a space, a tab, a line end of either kind or a form feed. */
  lemma AsciiWhiteSpace(b: Byte)
    ensures IsSpace(b) <==> b as char == ' ' || b as char == '\t' || b as char == '\n' || b as char == '\r' || b == 0x0C
  {
  }

  predicate Blank(line: Bytes) {
    forall i :: 0 <= i < |line| ==> IsSpace(line[i])
  }

  /** The serializer of one kind of record: its insides are not modelled, `Serializes` says what is relied on. A record
      need not read back as itself, nor at all: `takes` says whether the parser takes it (it refuses what nests too
      deep) and `readBack` what it comes back as. */
  datatype Codec<!R> = Codec(encode: R -> Bytes, decode: Bytes -> Option<R>, takes: R -> bool, readBack: R -> R)

  /** JSON on one line: it begins with no white space, holds no newline, reads back, reads the same with a newline after
      it, and no cut of it reads as a record. */
  ghost predicate Serializes<R(!new)>(codec: Codec<R>) {
    && (forall r: R :: codec.encode(r) != [] && !IsSpace(codec.encode(r)[0]) && NEWLINE !in codec.encode(r))
    && (forall r: R :: codec.decode(codec.encode(r)) == if codec.takes(r) then Some(codec.readBack(r)) else None)
    && (forall line: Bytes :: codec.decode(line + [NEWLINE]) == codec.decode(line))
    && (forall r: R, n: nat :: n < |codec.encode(r)| ==> codec.decode(codec.encode(r)[..n]) == None)
  }

  /** Every record reads back as it was written. */
  ghost predicate Faithful<R(!new)>(codec: Codec<R>) {
    forall r: R :: codec.takes(r) && codec.readBack(r) == r
  }

  predicate AllRead<R>(codec: Codec<R>, records: seq<R>) {
    forall i :: 0 <= i < |records| ==> codec.takes(records[i])
  }

  /** What records come back as. */
  function ReadBack<R>(codec: Codec<R>, records: seq<R>): (r: seq<R>)
    ensures |r| == |records| && forall i :: 0 <= i < |r| ==> r[i] == codec.readBack(records[i])
  {
    seq(|records|, i requires 0 <= i < |records| => codec.readBack(records[i]))
  }

  /** The file that holds exactly these records. */
  function Lines<R>(codec: Codec<R>, records: seq<R>): Bytes {
    if records == [] then [] else codec.encode(records[0]) + [NEWLINE] + Lines(codec, records[1..])
  }

  datatype Opening<R> = Opened(records: seq<R>, healed: Bytes) | Corrupt

  /** The first line of a nonempty text, its newline included. */
  function LineLength(text: Bytes): (n: nat)
    ensures text != [] ==> 0 < n <= |text|
    ensures text == [] ==> n == 0
  {
    if text == [] then 0 else if text[0] == NEWLINE then 1 else 1 + LineLength(text[1..])
  }

  /** The open, as a function of the rest of the file: `before` has been read and yielded `records`. */
  function Scanned<R>(codec: Codec<R>, before: Bytes, rest: Bytes, records: seq<R>): Opening<R>
    decreases |rest|
  {
    if rest == [] then
      Opened(records, if before != [] && before[|before| - 1] != NEWLINE then before + [NEWLINE] else before)
    else
      var n := LineLength(rest);
      var line := rest[..n];
      if Blank(line) then Scanned(codec, before + line, rest[n..], records)
      else
        match codec.decode(line)
        case Some(record) => Scanned(codec, before + line, rest[n..], records + [record])
        case None => if n == |rest| && line[n - 1] != NEWLINE then Opened(records, before) else Corrupt
  }

  function Open<R>(codec: Codec<R>, contents: Bytes): Opening<R> {
    Scanned(codec, [], contents, [])
  }

  /** A line that is not the last ends with its newline. */
  lemma {:induction false} LineEnds(text: Bytes)
    requires text != []
    ensures LineLength(text) < |text| ==> text[LineLength(text) - 1] == NEWLINE
    ensures forall i :: 0 <= i < LineLength(text) - 1 ==> text[i] != NEWLINE
  {
    if text[0] != NEWLINE && |text| > 1 {
      LineEnds(text[1..]);
    }
  }

  /** One round of the loop, in positions of the whole file. */
  lemma ScanLine<R>(codec: Codec<R>, contents: Bytes, at: nat, n: nat, records: seq<R>)
    requires at < |contents| && n == LineLength(contents[at..])
    ensures 0 < n <= |contents| - at
    ensures var line := contents[at..at + n];
            Scanned(codec, contents[..at], contents[at..], records)
            == if Blank(line) then Scanned(codec, contents[..at + n], contents[at + n..], records)
               else match codec.decode(line)
                    case Some(record) => Scanned(codec, contents[..at + n], contents[at + n..], records + [record])
                    case None =>
                      if at + n == |contents| && contents[|contents| - 1] != NEWLINE
                      then Opened(records, contents[..at])
                      else Corrupt
  {
    hide LineLength, Blank;
    var rest := contents[at..];
    assert rest[..n] == contents[at..at + n] && rest[n..] == contents[at + n..];
    assert contents[..at] + rest[..n] == contents[..at + n];
    assert n == |rest| ==> rest[..n][n - 1] == contents[|contents| - 1];
  }

  lemma ScanStarts<R>(codec: Codec<R>, contents: Bytes)
    ensures Open(codec, contents) == Scanned(codec, contents[..0], contents[0..], [])
  {
    hide Scanned;
    assert contents[..0] == [] && contents[0..] == contents;
  }

  lemma ScanEnds<R>(codec: Codec<R>, contents: Bytes, records: seq<R>)
    ensures Scanned(codec, contents[..|contents|], contents[|contents|..], records)
            == Opened(records, if contents != [] && contents[|contents| - 1] != NEWLINE then contents + [NEWLINE]
                               else contents)
  {
    assert contents[..|contents|] == contents && contents[|contents|..] == [];
  }

  /** The open as the logs run it: line by line, truncating a torn tail or adding the newline a crash left out. */
  method OpenFile<R>(codec: Codec<R>, contents: Bytes) returns (r: Opening<R>)
    ensures r == Open(codec, contents)
  {
    hide Scanned, Blank, LineLength, Open;
    var terminated := contents != [] && contents[|contents| - 1] == NEWLINE;
    var records: seq<R> := [];
    var validLen := 0;
    ScanStarts(codec, contents);
    while validLen < |contents|
      invariant 0 <= validLen <= |contents|
      invariant Open(codec, contents) == Scanned(codec, contents[..validLen], contents[validLen..], records)
    {
      var n := LineLength(contents[validLen..]);
      ScanLine(codec, contents, validLen, n, records);
      var line := contents[validLen..validLen + n];
      if Blank(line) {
        validLen := validLen + n;
      } else {
        var decoded := codec.decode(line);
        if decoded.Some? {
          records := records + [decoded.value];
          validLen := validLen + n;
        } else if validLen + n == |contents| && !terminated {
          return Opened(records, contents[..validLen]);
        } else {
          return Corrupt;
        }
      }
    }
    ScanEnds(codec, contents, records);
    r := Opened(records, if contents != [] && !terminated then contents + [NEWLINE] else contents);
  }

  // ---------------------------------------------------------------- what the open recovers

  /** The first line of a text, when it is known where its newline is. */
  lemma {:induction false} LineIs(line: Bytes, rest: Bytes)
    requires NEWLINE !in line
    ensures LineLength(line + [NEWLINE] + rest) == |line| + 1
    ensures LineLength(line) == |line|
  {
    if line != [] {
      assert (line + [NEWLINE] + rest)[1..] == line[1..] + [NEWLINE] + rest;
      LineIs(line[1..], rest);
    }
  }

  function Line<R>(codec: Codec<R>, record: R): Bytes {
    codec.encode(record) + [NEWLINE]
  }

  lemma ReadsLine<R(!new)>(codec: Codec<R>, before: Bytes, record: R, rest: Bytes, records: seq<R>)
    requires Serializes(codec) && codec.takes(record)
    ensures Scanned(codec, before, Line(codec, record) + rest, records)
            == Scanned(codec, before + Line(codec, record), rest, records + [codec.readBack(record)])
  {
    var line := Line(codec, record);
    LineIs(codec.encode(record), rest);
    hide LineLength;
    assert (line + rest)[..|line|] == line && (line + rest)[|line|..] == rest;
    assert !Blank(line) by { assert !IsSpace(line[0]); }
  }

  lemma FirstRead<R>(codec: Codec<R>, written: seq<R>)
    requires written != [] && AllRead(codec, written)
    ensures codec.takes(written[0]) && AllRead(codec, written[1..])
    ensures ReadBack(codec, written) == [codec.readBack(written[0])] + ReadBack(codec, written[1..])
  {
  }

  /** Complete lines are read back whole, wherever they stand and whatever follows. */
  lemma {:induction false} ReadsLines<R(!new)>(codec: Codec<R>, before: Bytes, written: seq<R>, rest: Bytes,
                                               records: seq<R>)
    requires Serializes(codec) && AllRead(codec, written)
    ensures Scanned(codec, before, Lines(codec, written) + rest, records)
            == Scanned(codec, before + Lines(codec, written), rest, records + ReadBack(codec, written))
    decreases |written|
  {
    assert written == [] ==> ReadBack(codec, written) == [];
    hide Scanned, Serializes, Line, AllRead, ReadBack;
    if written == [] {
      assert Lines(codec, written) + rest == rest && before + Lines(codec, written) == before;
      assert records + [] == records;
    } else {
      var line, later := Line(codec, written[0]), Lines(codec, written[1..]);
      FirstOfLines(codec, written);
      FirstRead(codec, written);
      assert (line + later) + rest == line + (later + rest) && (before + line) + later == before + (line + later);
      ReadsLine(codec, before, written[0], later + rest, records);
      var first := [codec.readBack(written[0])];
      ReadsLines(codec, before + line, written[1..], rest, records + first);
      Regroup(records, first, ReadBack(codec, written[1..]));
    }
  }

  lemma FirstOfLines<R>(codec: Codec<R>, records: seq<R>)
    requires records != []
    ensures Lines(codec, records) == Line(codec, records[0]) + Lines(codec, records[1..])
    ensures Lines(codec, [records[0]]) == Line(codec, records[0])
  {
    assert [records[0]][1..] == [];
  }

  /** A clean file whose records read opens to what they come back as and is left as it is. */
  lemma OpensClean<R(!new)>(codec: Codec<R>, records: seq<R>)
    requires Serializes(codec) && AllRead(codec, records)
    ensures Open(codec, Lines(codec, records)) == Opened(ReadBack(codec, records), Lines(codec, records))
  {
    hide Scanned, Lines, ReadBack, Serializes, AllRead;
    ReadsLines(codec, [], records, [], []);
    LinesTerminated(codec, records);
    var text, read := Lines(codec, records), ReadBack(codec, records);
    ScanEnds(codec, text, read);
    assert text + [] == text && [] + text == text && [] + read == read;
    assert text[..|text|] == text && text[|text|..] == [];
  }

  /** A line the parser refuses, with its newline, stops the open. */
  lemma RefusesLine<R(!new)>(codec: Codec<R>, before: Bytes, record: R, rest: Bytes, records: seq<R>)
    requires Serializes(codec) && !codec.takes(record)
    ensures Scanned(codec, before, Line(codec, record) + rest, records) == Corrupt
  {
    var line := Line(codec, record);
    LineIs(codec.encode(record), rest);
    hide LineLength;
    assert (line + rest)[..|line|] == line && (line + rest)[|line|..] == rest;
    assert !Blank(line) by { assert !IsSpace(line[0]); }
  }

  /** A clean file opens at all exactly when the parser takes each of its records. */
  lemma OpensExactly<R(!new)>(codec: Codec<R>, records: seq<R>)
    requires Serializes(codec)
    ensures Open(codec, Lines(codec, records))
            == if AllRead(codec, records) then Opened(ReadBack(codec, records), Lines(codec, records)) else Corrupt
  {
    hide Scanned, Serializes, Lines, Line, ReadBack;
    if AllRead(codec, records) {
      OpensClean(codec, records);
    } else {
      var i := FirstRefused(codec, records);
      var front, back := records[..i], records[i + 1..];
      assert records == front + ([records[i]] + back);
      LinesAppend(codec, front, [records[i]] + back);
      assert ([records[i]] + back)[0] == records[i] && ([records[i]] + back)[1..] == back;
      FirstOfLines(codec, [records[i]] + back);
      ReadsLines(codec, [], front, Line(codec, records[i]) + Lines(codec, back), []);
      RefusesLine(codec, [] + Lines(codec, front), records[i], Lines(codec, back), [] + ReadBack(codec, front));
    }
  }

  lemma {:induction false} FirstRefused<R>(codec: Codec<R>, records: seq<R>) returns (i: nat)
    requires !AllRead(codec, records)
    ensures i < |records| && AllRead(codec, records[..i]) && !codec.takes(records[i])
  {
    i := 0;
    while codec.takes(records[i])
      invariant i < |records| && AllRead(codec, records[..i])
      decreases |records| - i
    {
      i := i + 1;
    }
  }

  lemma {:induction false} LinesTerminated<R>(codec: Codec<R>, records: seq<R>)
    ensures var text := Lines(codec, records); text != [] ==> text[|text| - 1] == NEWLINE
  {
    if records != [] {
      LinesTerminated(codec, records[1..]);
    }
  }

  /** How many records of an append cut at byte `cut` reached the file, the last perhaps without its newline. */
  function Arrived<R>(codec: Codec<R>, batch: seq<R>, cut: nat): (k: nat)
    ensures k <= |batch|
  {
    if batch == [] || cut < |codec.encode(batch[0])| then 0
    else if cut == |codec.encode(batch[0])| then 1
    else 1 + Arrived(codec, batch[1..], cut - |codec.encode(batch[0])| - 1)
  }

  /** What opening a file whose last append was cut anywhere recovers: what the records before it and those of the
      append that arrived come back as. Opened again, the healed file is the clean file of those records. */
  lemma TornAppendHeals<R(!new)>(codec: Codec<R>, records: seq<R>, batch: seq<R>, cut: nat)
    requires Serializes(codec) && AllRead(codec, records) && AllRead(codec, batch) && cut <= |Lines(codec, batch)|
    ensures var survived := records + batch[..Arrived(codec, batch, cut)];
            Open(codec, Lines(codec, records) + Lines(codec, batch)[..cut])
            == Opened(ReadBack(codec, survived), Lines(codec, survived)) == Open(codec, Lines(codec, survived))
  {
    hide Scanned, Serializes, Lines, Arrived, ReadBack;
    var k, read := Arrived(codec, batch, cut), ReadBack(codec, records);
    ReadsLines(codec, [], records, Lines(codec, batch)[..cut], []);
    assert [] + Lines(codec, records) == Lines(codec, records) && [] + read == read;
    LinesTerminated(codec, records);
    TornTail(codec, Lines(codec, records), read, batch, cut);
    LinesAppend(codec, records, batch[..k]);
    assert read + ReadBack(codec, batch[..k]) == ReadBack(codec, records + batch[..k]);
    OpensClean(codec, records + batch[..k]);
  }

  lemma {:induction false} LinesAppend<R>(codec: Codec<R>, front: seq<R>, back: seq<R>)
    ensures Lines(codec, front + back) == Lines(codec, front) + Lines(codec, back)
  {
    if front == [] {
      assert front + back == back;
    } else {
      assert (front + back)[1..] == front[1..] + back;
      LinesAppend(codec, front[1..], back);
    }
  }

  lemma ArrivedBy<R>(codec: Codec<R>, batch: seq<R>, cut: nat)
    ensures batch == [] ==> Arrived(codec, batch, cut) == 0
    ensures batch != [] ==>
              var n := |codec.encode(batch[0])|;
              Arrived(codec, batch, cut)
              == if cut < n then 0 else if cut == n then 1 else 1 + Arrived(codec, batch[1..], cut - n - 1)
  {
  }

  lemma LineParts<R>(codec: Codec<R>, record: R)
    ensures var line := Line(codec, record);
            |line| == |codec.encode(record)| + 1 && line[|line| - 1] == NEWLINE
            && forall cut :: 0 <= cut < |line| ==> line[..cut] == codec.encode(record)[..cut]
  {
  }

  lemma NoLines<R>(codec: Codec<R>, before: Bytes)
    ensures Lines(codec, []) == [] && before + [] == before
  {
  }

  /** What scanning a torn append yields: the records of it that arrived. */
  ghost predicate YieldsArrived<R(!new)>(codec: Codec<R>, before: Bytes, records: seq<R>, batch: seq<R>, cut: nat)
    requires cut <= |Lines(codec, batch)|
  {
    var kept := batch[..Arrived(codec, batch, cut)];
    Scanned(codec, before, Lines(codec, batch)[..cut], records)
    == Opened(records + ReadBack(codec, kept), before + Lines(codec, kept))
  }

  lemma {:induction false} TornTail<R(!new)>(codec: Codec<R>, before: Bytes, records: seq<R>, batch: seq<R>, cut: nat)
    requires Serializes(codec) && AllRead(codec, batch) && cut <= |Lines(codec, batch)|
    requires before != [] ==> before[|before| - 1] == NEWLINE
    ensures YieldsArrived(codec, before, records, batch, cut)
    decreases |batch|
  {
    hide Scanned, Lines, Line, Serializes, Arrived, YieldsArrived;
    if batch == [] {
      TornNothing(codec, before, records, cut);
    } else {
      FirstOfLines(codec, batch);
      LineParts(codec, batch[0]);
      var line := Line(codec, batch[0]);
      if cut < |line| {
        TornFirst(codec, before, records, batch, cut);
      } else {
        TornTail(codec, before + line, records + [codec.readBack(batch[0])], batch[1..], cut - |line|);
        TornLater(codec, before, records, batch, cut);
      }
    }
  }

  lemma TornNothing<R(!new)>(codec: Codec<R>, before: Bytes, records: seq<R>, cut: nat)
    requires cut <= |Lines(codec, [])| && (before != [] ==> before[|before| - 1] == NEWLINE)
    ensures YieldsArrived(codec, before, records, [], cut)
  {
    NoLines(codec, before);
    assert Lines(codec, [])[..cut] == [] && records + ReadBack(codec, []) == records;
  }

  lemma TornFirst<R(!new)>(codec: Codec<R>, before: Bytes, records: seq<R>, batch: seq<R>, cut: nat)
    requires Serializes(codec) && batch != [] && cut < |Line(codec, batch[0])| && cut <= |Lines(codec, batch)|
    requires codec.takes(batch[0])
    requires before != [] ==> before[|before| - 1] == NEWLINE
    ensures YieldsArrived(codec, before, records, batch, cut)
  {
    NoLines(codec, before);
    hide Scanned, Lines, Line, Serializes, IsSpace, Arrived;
    ArrivedBy(codec, batch, cut);
    FirstOfLines(codec, batch);
    LineParts(codec, batch[0]);
    var line, later := Line(codec, batch[0]), Lines(codec, batch[1..]);
    assert (line + later)[..cut] == line[..cut];
    TornLine(codec, before, records, batch[0], cut);
    assert batch[..0] == [] && batch[..1] == [batch[0]] && records + ReadBack(codec, []) == records;
  }

  lemma TornLater<R(!new)>(codec: Codec<R>, before: Bytes, records: seq<R>, batch: seq<R>, cut: nat)
    requires Serializes(codec) && batch != [] && |Line(codec, batch[0])| <= cut <= |Lines(codec, batch)|
    requires codec.takes(batch[0])
    requires cut - |Line(codec, batch[0])| <= |Lines(codec, batch[1..])|
    requires var line := Line(codec, batch[0]);
             YieldsArrived(codec, before + line, records + [codec.readBack(batch[0])], batch[1..], cut - |line|)
    ensures YieldsArrived(codec, before, records, batch, cut)
  {
    hide Scanned, Lines, Line, Serializes, Arrived;
    ArrivedBy(codec, batch, cut);
    FirstOfLines(codec, batch);
    LineParts(codec, batch[0]);
    var line, later := Line(codec, batch[0]), Lines(codec, batch[1..]);
    var past := cut - |line|;
    assert (line + later)[..cut] == line + later[..past];
    ReadsLine(codec, before, batch[0], later[..past], records);
    KeptAfter(codec, before, records, batch, Arrived(codec, batch[1..], past));
  }

  lemma KeptAfter<R>(codec: Codec<R>, before: Bytes, records: seq<R>, batch: seq<R>, k: nat)
    requires k < |batch|
    ensures before + Line(codec, batch[0]) + Lines(codec, batch[1..][..k]) == before + Lines(codec, batch[..k + 1])
    ensures records + [codec.readBack(batch[0])] + ReadBack(codec, batch[1..][..k])
            == records + ReadBack(codec, batch[..k + 1])
  {
    hide Line;
    FirstOfLines(codec, batch[..k + 1]);
    assert batch[..k + 1][1..] == batch[1..][..k];
    assert batch[..k + 1] == [batch[0]] + batch[1..][..k];
  }

  /** A single line cut inside, or just before its newline. */
  lemma TornLine<R(!new)>(codec: Codec<R>, before: Bytes, records: seq<R>, record: R, cut: nat)
    requires Serializes(codec) && codec.takes(record) && cut <= |codec.encode(record)|
    requires before != [] ==> before[|before| - 1] == NEWLINE
    ensures var line := codec.encode(record);
            Scanned(codec, before, line[..cut], records)
            == if cut < |line| then Opened(records, before)
            else Opened(records + [codec.readBack(record)], before + Line(codec, record))
  {
    var line := codec.encode(record)[..cut];
    if line == [] {
      return;
    }
    LineIs(line, []);
    assert before + line + [NEWLINE] == before + (line + [NEWLINE]);
    assert !Blank(line) by { assert !IsSpace(line[0]); }
    assert line[..|line|] == line && line[|line|..] == [];
    assert cut == |codec.encode(record)| ==> line == codec.encode(record);
  }

  // ---------------------------------------------------------------- whatever the file was

  predicate Terminated(text: Bytes) {
    text == [] || text[|text| - 1] == NEWLINE
  }

  /** A healed file opens again to the same records and is left as it is, whatever the file was before. */
  lemma HealedOpensUnchanged<R(!new)>(codec: Codec<R>, contents: Bytes)
    requires Serializes(codec) && Open(codec, contents).Opened?
    ensures var opening := Open(codec, contents); Open(codec, opening.healed) == opening
  {
    var t := HealedRest(codec, [], contents, []);
    assert [] + t == t;
  }

  /** A first line: it has no newline but at its end, and it ends with one unless the text does. */
  predicate LeadsTo(line: Bytes, rest: Bytes) {
    && line != [] && (forall i :: 0 <= i < |line| - 1 ==> line[i] != NEWLINE)
    && (line[|line| - 1] == NEWLINE || rest == [])
  }

  function AfterLine<R>(codec: Codec<R>, before: Bytes, line: Bytes, rest: Bytes, records: seq<R>): Opening<R>
    requires line != []
  {
    if Blank(line) then Scanned(codec, before + line, rest, records)
    else
      match codec.decode(line)
      case Some(record) => Scanned(codec, before + line, rest, records + [record])
      case None => if rest == [] && line[|line| - 1] != NEWLINE then Opened(records, before) else Corrupt
  }

  lemma ScanStep<R>(codec: Codec<R>, before: Bytes, line: Bytes, rest: Bytes, records: seq<R>)
    requires LeadsTo(line, rest)
    ensures Scanned(codec, before, line + rest, records) == AfterLine(codec, before, line, rest, records)
  {
    LineCut(line, rest);
    assert (line + rest)[..|line|] == line && (line + rest)[|line|..] == rest;
    hide LineLength, Blank;
  }

  lemma LineCut(line: Bytes, rest: Bytes)
    requires LeadsTo(line, rest)
    ensures LineLength(line + rest) == |line|
  {
    if line[|line| - 1] == NEWLINE {
      var body := line[..|line| - 1];
      assert line == body + [NEWLINE];
      LineIs(body, rest);
    } else {
      assert line + rest == line;
      LineIs(line, []);
    }
  }

  lemma FirstLine(rest: Bytes)
    requires rest != []
    ensures var n := LineLength(rest); LeadsTo(rest[..n], rest[n..]) && rest == rest[..n] + rest[n..]
  {
    LineEnds(rest);
  }

  lemma ScanNone<R>(codec: Codec<R>, before: Bytes, records: seq<R>)
    requires Terminated(before)
    ensures Scanned(codec, before, [], records) == Opened(records, before + [])
  {
    assert before + [] == before;
  }

  lemma ScanUnended<R>(codec: Codec<R>, before: Bytes, records: seq<R>)
    requires before != [] && before[|before| - 1] != NEWLINE
    ensures Scanned(codec, before, [], records) == Opened(records, before + [NEWLINE])
  {
  }

  lemma {:induction false} HealedRest<R(!new)>(codec: Codec<R>, before: Bytes, rest: Bytes, records: seq<R>)
    returns (t: Bytes)
    requires Serializes(codec) && Terminated(before) && Scanned(codec, before, rest, records).Opened?
    ensures var opening := Scanned(codec, before, rest, records);
            opening.healed == before + t && Scanned(codec, before, t, records) == opening
    decreases |rest|
  {
    hide Scanned, LineLength, Blank, Serializes;
    ScanNone(codec, before, records);
    if rest == [] {
      return [];
    }
    var n := LineLength(rest);
    var line, later := rest[..n], rest[n..];
    FirstLine(rest);
    ScanStep(codec, before, line, later, records);
    if line[n - 1] != NEWLINE {
      t := HealedLast(codec, before, line, records);
    } else {
      var read := if Blank(line) then records else records + [codec.decode(line).value];
      var t' := HealedRest(codec, before + line, later, read);
      t := line + t';
      ScanStep(codec, before, line, t', records);
      assert before + t == before + line + t';
    }
  }

  /** An unterminated last line either goes or gets its newline. */
  lemma HealedLast<R(!new)>(codec: Codec<R>, before: Bytes, line: Bytes, records: seq<R>) returns (t: Bytes)
    requires Serializes(codec) && Terminated(before) && NEWLINE !in line && line != []
    ensures var opening := AfterLine(codec, before, line, [], records);
            opening.Opened? && opening.healed == before + t && Scanned(codec, before, t, records) == opening
  {
    hide Scanned, LineLength, Blank;
    ScanNone(codec, before, records);
    if !Blank(line) && codec.decode(line).None? {
      return [];
    }
    t := line + [NEWLINE];
    var read := if Blank(line) then records else records + [codec.decode(line).value];
    ScanStep(codec, before, t, [], records);
    BlankLonger(line);
    assert t + [] == t && before + t == before + line + [NEWLINE];
    ScanUnended(codec, before + line, read);
    ScanNone(codec, before + t, read);
  }

  lemma BlankLonger(line: Bytes)
    ensures Blank(line + [NEWLINE]) == Blank(line)
  {
    if Blank(line + [NEWLINE]) {
      forall i | 0 <= i < |line|
        ensures IsSpace(line[i])
      {
        assert (line + [NEWLINE])[i] == line[i];
      }
    }
  }
}

/** The texts that content addresses are taken over (`ExampleBody::digest` and `create_dataset_version` of
    `src/evals.rs`), spelled out member by member: persisted identities, which no change of the program may move. */
module EvalText {
  import opened Common
  import opened CanonicalJson
  import opened EvalState

  // ---------------------------------------------------------------- objects

  /** With commas between them. */
  function Joined(parts: seq<string>): string {
    if parts == [] then ""
    else if |parts| == 1 then parts[0]
    else parts[0] + "," + Joined(parts[1..])
  }

  function Field(name: string, text: string): string { Quoted(name) + ":" + text }

  function Present(absent: bool, part: string): seq<string> { if absent then [] else [part] }

  function MemberTexts(members: seq<Member>): seq<string> {
    seq(|members|, i requires 0 <= i < |members| => Field(members[i].key, Text(members[i].value)))
  }

  lemma {:induction false} MembersJoined(owner: Json, members: seq<Member>)
    requires forall i :: 0 <= i < |members| ==> members[i].value < owner
    ensures MembersText(owner, members) == Joined(MemberTexts(members))
    decreases |members|
  {
    hide Text, Quoted;
    if |members| > 1 {
      MembersJoined(owner, members[1..]);
      assert MemberTexts(members)[1..] == MemberTexts(members[1..]);
    }
  }

  /** The text of an object whose members stand in this order once they are sorted. */
  lemma ObjectText(members: seq<Member>, sorted: seq<Member>)
    requires SortByKey(OrderedMembers(Obj(members), members)) == sorted
    ensures Canonical(Obj(members)) == "{" + Joined(MemberTexts(sorted)) + "}"
  {
    hide Joined, MemberTexts, SortByKey;
    assert Ordered(Obj(members)) == Obj(sorted);
    MembersJoined(Obj(sorted), sorted);
  }

  // ---------------------------------------------------------------- sorting a few members

  lemma EarlierLetter(a: string, b: string)
    requires a != "" && b != "" && a[0] < b[0]
    ensures Less(a, b) && !Less(b, a)
  {
  }

  /** A member goes after one it is not less than and before those it is. */
  lemma InsertBetween(member: Member, before: seq<Member>, after: seq<Member>)
    requires |before| <= 1 && (before != [] ==> !Less(member.key, before[0].key))
    requires after == [] || Less(member.key, after[0].key)
    ensures Insert(member, before + after) == before + [member] + after
  {
    hide Less;
    assert Insert(member, after) == [member] + after;
    if before == [] {
      assert before + after == after;
    } else {
      var sorted := before + after;
      assert sorted[0] == before[0] && sorted[1..] == after && before == [before[0]];
      Regroup(before, [member], after);
    }
  }

  lemma SortFirst(first: seq<Member>, rest: seq<Member>, before: seq<Member>, after: seq<Member>)
    requires |first| <= 1 && |before| <= 1 && SortByKey(rest) == before + after
    requires first != [] && before != [] ==> !Less(first[0].key, before[0].key)
    requires first != [] && after != [] ==> Less(first[0].key, after[0].key)
    ensures SortByKey(first + rest) == before + first + after
  {
    hide Less, SortByKey, Insert;
    if first == [] {
      assert first + rest == rest && before + first == before;
    } else {
      InsertBetween(first[0], before, after);
      SortUnfolds(first, rest);
    }
  }

  lemma SortFront(first: seq<Member>, rest: seq<Member>, after: seq<Member>)
    requires |first| <= 1 && SortByKey(rest) == after
    requires first != [] && after != [] ==> Less(first[0].key, after[0].key)
    ensures SortByKey(first + rest) == first + after
  {
    hide Less, SortByKey;
    if first == [] {
      assert first + rest == rest && first + after == after;
    } else {
      SortUnfolds(first, rest);
    }
  }

  lemma SortUnfolds(first: seq<Member>, rest: seq<Member>)
    requires |first| == 1
    ensures SortByKey(first + rest) == Insert(first[0], SortByKey(rest)) && first == [first[0]]
  {
    assert (first + rest)[0] == first[0] && (first + rest)[1..] == rest;
    hide Insert, Less;
  }

  lemma SortOne(members: seq<Member>)
    requires |members| <= 1
    ensures SortByKey(members) == members
  {
    if members != [] {
      assert members[1..] == [] && members == [members[0]];
    }
  }

  // ---------------------------------------------------------------- a body

  function SourceText(from: Provenance): string {
    "{" + Joined(Present(from.spanId == "", Field("span_id", Quoted(from.spanId)))
                 + Present(from.tenant == "", Field("tenant", Quoted(from.tenant)))
                 + Present(from.traceId == "", Field("trace_id", Quoted(from.traceId)))) + "}"
  }

  /** The text a body's address is taken over: its members in key order, the empty ones left out. */
  function BodyText(body: Body): string {
    "{" + Joined(
            (if body.expected.Some? then [Field("expected", Canonical(body.expected.value))] else [])
            + [Field("input", Canonical(body.input))]
            + (if body.provenance.Some? then [Field("provenance", SourceText(body.provenance.value))] else [])
            + Present(body.split == "", Field("split", Quoted(body.split)))) + "}"
  }

  lemma TextsJoin(one: seq<Member>, other: seq<Member>)
    ensures MemberTexts(one + other) == MemberTexts(one) + MemberTexts(other)
  {
    hide Text, Quoted;
  }

  /** Every member with its value ordered. */
  function EachOrdered(members: seq<Member>): seq<Member> {
    seq(|members|, i requires 0 <= i < |members| => Member(members[i].key, Ordered(members[i].value)))
  }

  lemma OrdersEach(one: seq<Member>, other: seq<Member>)
    ensures OrderedMembers(Obj(one), one) == EachOrdered(one)
    ensures EachOrdered(one + other) == EachOrdered(one) + EachOrdered(other)
  {
    hide Ordered;
  }

  /** A member that may be missing. */
  predicate Slot(members: seq<Member>, key: string) { |members| <= 1 && (members != [] ==> members[0].key == key) }

  lemma SlotMeans(absent: bool, key: string, value: Json)
    ensures var members := EachOrdered(Unless(absent, key, value));
            Slot(members, key) && MemberTexts(members) == Present(absent, Field(key, Canonical(value)))
  {
    hide Text, Ordered, Quoted;
  }

  lemma SortSource(tenant: seq<Member>, trace: seq<Member>, span: seq<Member>)
    requires Slot(tenant, "tenant") && Slot(trace, "trace_id") && Slot(span, "span_id")
    ensures SortByKey(tenant + (trace + span)) == span + tenant + trace
  {
    EarlierLetter("span_id", "tenant");
    EarlierLetter("span_id", "trace_id");
    EarlierLetter("tenant"[1..], "trace_id"[1..]);
    assert Less("tenant", "trace_id");
    hide Less, SortByKey;
    SortOne(span);
    assert span == span + [];
    SortFirst(trace, span, span, []);
    assert span + trace + [] == span + trace;
    SortFirst(tenant, trace + span, span, trace);
  }

  lemma SourceInOrder(tenant: seq<Member>, trace: seq<Member>, span: seq<Member>)
    requires Slot(EachOrdered(tenant), "tenant") && Slot(EachOrdered(trace), "trace_id")
    requires Slot(EachOrdered(span), "span_id")
    ensures Canonical(Obj(tenant + trace + span))
            == "{" + Joined(MemberTexts(EachOrdered(span)) + MemberTexts(EachOrdered(tenant))
                            + MemberTexts(EachOrdered(trace))) + "}"
  {
    hide *;
    var t, r, s := EachOrdered(tenant), EachOrdered(trace), EachOrdered(span);
    OrdersEach(tenant + trace + span, []);
    OrdersEach(tenant + trace, span);
    OrdersEach(tenant, trace);
    assert t + r + s == t + (r + s);
    SortSource(t, r, s);
    ObjectText(tenant + trace + span, s + t + r);
    TextsJoin(s + t, r);
    TextsJoin(s, t);
  }

  lemma SourceIsSaid(from: Provenance)
    ensures Canonical(SourceJson(from)) == SourceText(from)
  {
    var tenant := Unless(from.tenant == [], "tenant", Str(from.tenant));
    var trace := Unless(from.traceId == [], "trace_id", Str(from.traceId));
    var span := Unless(from.spanId == [], "span_id", Str(from.spanId));
    assert forall text :: Canonical(Str(text)) == Quoted(text);
    SlotMeans(from.tenant == [], "tenant", Str(from.tenant));
    SlotMeans(from.traceId == [], "trace_id", Str(from.traceId));
    SlotMeans(from.spanId == [], "span_id", Str(from.spanId));
    hide Unless, Present, Quoted, Joined, SortByKey, MemberTexts, Field, Canonical, OrderedMembers, EachOrdered, Slot;
    SourceInOrder(tenant, trace, span);
  }

  // ---------------------------------------------------------------- a body

  lemma SortBody(input: seq<Member>, expected: seq<Member>, split: seq<Member>, source: seq<Member>)
    requires Slot(input, "input") && Slot(expected, "expected") && Slot(split, "split") && Slot(source, "provenance")
    ensures SortByKey(input + (expected + (split + source))) == expected + input + source + split
  {
    EarlierLetter("expected", "provenance");
    EarlierLetter("expected", "split");
    hide Less, SortByKey;
    SortTail(split, source);
    SortFront(expected, split + source, source + split);
    SortInput(input, expected, split, source);
    Regroup(expected + input, source, split);
  }

  lemma SortTail(split: seq<Member>, source: seq<Member>)
    requires Slot(split, "split") && Slot(source, "provenance")
    ensures SortByKey(split + source) == source + split
  {
    EarlierLetter("provenance", "split");
    hide Less, SortByKey;
    SortOne(source);
    assert source == source + [] && source + split + [] == source + split;
    SortFirst(split, source, source, []);
  }

  lemma SortInput(input: seq<Member>, expected: seq<Member>, split: seq<Member>, source: seq<Member>)
    requires Slot(input, "input") && Slot(expected, "expected") && Slot(split, "split") && Slot(source, "provenance")
    requires SortByKey(expected + (split + source)) == expected + (source + split)
    ensures SortByKey(input + (expected + (split + source))) == expected + input + (source + split)
  {
    EarlierLetter("expected", "input");
    EarlierLetter("input", "provenance");
    EarlierLetter("input", "split");
    hide Less, SortByKey;
    SortFirst(input, expected + (split + source), expected, source + split);
  }

  lemma BodyInOrder(input: seq<Member>, expected: seq<Member>, split: seq<Member>, source: seq<Member>)
    requires Slot(EachOrdered(input), "input") && Slot(EachOrdered(expected), "expected")
    requires Slot(EachOrdered(split), "split") && Slot(EachOrdered(source), "provenance")
    ensures Canonical(Obj(input + expected + split + source))
            == "{" + Joined(MemberTexts(EachOrdered(expected)) + MemberTexts(EachOrdered(input))
                            + MemberTexts(EachOrdered(source)) + MemberTexts(EachOrdered(split))) + "}"
  {
    hide *;
    var i, e, s, p := EachOrdered(input), EachOrdered(expected), EachOrdered(split), EachOrdered(source);
    OrdersEach(input + expected + split + source, []);
    OrdersEach(input + expected + split, source);
    OrdersEach(input + expected, split);
    OrdersEach(input, expected);
    assert i + e + s + p == i + (e + (s + p));
    SortBody(i, e, s, p);
    ObjectText(input + expected + split + source, e + i + p + s);
    TextsJoin(e + i + p, s);
    TextsJoin(e + i, p);
    TextsJoin(e, i);
  }

  lemma BodyParts(body: Body, from: Json)
    requires from == if body.provenance.Some? then SourceJson(body.provenance.value) else Null
    ensures BodyJson(body)
            == Obj(Unless(false, "input", body.input)
                   + Unless(body.expected.None?, "expected", body.expected.GetOr(Null))
                   + Unless(body.split == [], "split", Str(body.split))
                   + Unless(body.provenance.None?, "provenance", from))
  {
    hide SourceJson;
  }

  lemma TextParts(body: Body, from: string)
    requires body.provenance.Some? ==> from == SourceText(body.provenance.value)
    ensures BodyText(body)
            == "{" + Joined(Present(body.expected.None?, Field("expected", Canonical(body.expected.GetOr(Null))))
                            + Present(false, Field("input", Canonical(body.input)))
                            + Present(body.provenance.None?, Field("provenance", from))
                            + Present(body.split == "", Field("split", Quoted(body.split)))) + "}"
  {
    hide Joined, Field, Canonical, Quoted, SourceText;
  }

  lemma SplitIsSaid(split: string)
    ensures Canonical(Str(split)) == Quoted(split)
  {
    hide Quoted;
  }

  /** An example is stored under the hash of this text. */
  lemma BodyIsAddressedByItsText(hash: Hash, body: Body)
    ensures Digest(hash, body) == hash(BodyText(body))
  {
    var from := if body.provenance.Some? then SourceJson(body.provenance.value) else Null;
    SplitIsSaid(body.split);
    BodyParts(body, from);
    hide BodyText, BodyJson, Unless, Present, Quoted, Joined, SortByKey, MemberTexts, Field, Canonical, OrderedMembers,
         EachOrdered, Slot, SourceText, SourceJson;
    if body.provenance.Some? {
      SourceIsSaid(body.provenance.value);
    }
    SlotMeans(false, "input", body.input);
    SlotMeans(body.expected.None?, "expected", body.expected.GetOr(Null));
    SlotMeans(body.split == [], "split", Str(body.split));
    SlotMeans(body.provenance.None?, "provenance", from);
    TextParts(body, if body.provenance.Some? then SourceText(body.provenance.value) else "null");
    BodyInOrder(Unless(false, "input", body.input), Unless(body.expected.None?, "expected", body.expected.GetOr(Null)),
                Unless(body.split == [], "split", Str(body.split)), Unless(body.provenance.None?, "provenance", from));
  }

  // ---------------------------------------------------------------- a version

  function PairTexts(pairs: seq<Pair>): seq<string> {
    seq(|pairs|, i requires 0 <= i < |pairs| => "[" + Quoted(pairs[i].0) + "," + Quoted(pairs[i].1) + "]")
  }

  /** The text a version's id is taken over: its dataset, its examples with their digests, and its parent. */
  function VersionText(datasetId: U64, parent: Option<string>, pairs: seq<Pair>): string {
    "{" + Joined([Field("dataset_id", Decimal(datasetId)), Field("examples", "[" + Joined(PairTexts(pairs)) + "]"),
                  Field("parent", if parent.Some? then Quoted(parent.value) else "null")]) + "}"
  }

  lemma PairIsSaid(pair: Pair)
    ensures Ordered(PairJson(pair)) == PairJson(pair)
    ensures Text(PairJson(pair)) == "[" + Quoted(pair.0) + "," + Quoted(pair.1) + "]"
  {
    hide Quoted;
    var items := [Str(pair.0), Str(pair.1)];
    assert Ordered(PairJson(pair)).items == items;
    assert items[1] < PairJson(pair);
    LastItemText(PairJson(pair), items[1..], pair.1);
    assert Text(items[0]) == Quoted(pair.0);
  }

  lemma LastItemText(owner: Json, items: seq<Json>, text: string)
    requires items == [Str(text)] && items[0] < owner
    ensures ItemsText(owner, items) == Quoted(text)
  {
    hide Quoted;
  }

  lemma {:induction false} ItemsJoined(owner: Json, pairs: seq<Pair>, items: seq<Json>)
    requires |items| == |pairs| && forall i :: 0 <= i < |items| ==> items[i] < owner && items[i] == PairJson(pairs[i])
    ensures ItemsText(owner, items) == Joined(PairTexts(pairs))
    decreases |items|
  {
    hide Text, Quoted, PairJson;
    if items != [] {
      PairIsSaid(pairs[0]);
      if |items| > 1 {
        ItemsJoined(owner, pairs[1..], items[1..]);
        assert PairTexts(pairs)[1..] == PairTexts(pairs[1..]);
      }
    }
  }

  lemma PairsAreSaid(pairs: seq<Pair>)
    ensures Canonical(PairsJson(pairs)) == "[" + Joined(PairTexts(pairs)) + "]"
  {
    var json := PairsJson(pairs);
    forall i | 0 <= i < |pairs|
      ensures Ordered(json.items[i]) == json.items[i]
    {
      PairIsSaid(pairs[i]);
    }
    hide PairJson, Joined, PairTexts;
    assert Ordered(json).items == json.items;
    ItemsJoined(json, pairs, json.items);
  }

  /** A version's id is the hash of this text. */
  lemma VersionIsAddressedByItsText(hash: Hash, datasetId: U64, parent: Option<string>, pairs: seq<Pair>)
    ensures VersionId(hash, datasetId, parent, pairs) == hash(VersionText(datasetId, parent, pairs))
  {
    PairsAreSaid(pairs);
    ScalarsAreSaid(datasetId, parent);
    hide Canonical, PairsJson, ParentJson, Field, Joined, Quoted, Decimal;
    var id, above := Member("dataset_id", Number(datasetId)), Member("parent", ParentJson(parent));
    VersionInOrder(id, above, Member("examples", PairsJson(pairs)));
  }

  lemma ScalarsAreSaid(datasetId: U64, parent: Option<string>)
    ensures Canonical(Number(datasetId)) == Decimal(datasetId)
    ensures Canonical(ParentJson(parent)) == if parent.Some? then Quoted(parent.value) else "null"
  {
    hide Quoted, Decimal;
  }

  lemma VersionInOrder(id: Member, above: Member, examples: Member)
    requires id.key == "dataset_id" && above.key == "parent" && examples.key == "examples"
    ensures Canonical(Obj([id, above, examples]))
            == "{" + Joined([Field(id.key, Canonical(id.value)), Field(examples.key, Canonical(examples.value)),
                             Field(above.key, Canonical(above.value))]) + "}"
  {
    OneText(id);
    OneText(above);
    OneText(examples);
    hide Joined, MemberTexts, EachOrdered, Canonical, Field;
    VersionSlots([id], [above], [examples]);
    assert [id] + [above] + [examples] == [id, above, examples];
    var fields := [Field(id.key, Canonical(id.value)), Field(examples.key, Canonical(examples.value)),
                   Field(above.key, Canonical(above.value))];
    assert MemberTexts(EachOrdered([id])) + MemberTexts(EachOrdered([examples])) + MemberTexts(EachOrdered([above]))
        == fields;
  }

  lemma VersionSlots(id: seq<Member>, above: seq<Member>, examples: seq<Member>)
    requires Slot(EachOrdered(id), "dataset_id") && Slot(EachOrdered(above), "parent")
    requires Slot(EachOrdered(examples), "examples")
    ensures Canonical(Obj(id + above + examples))
            == "{" + Joined(MemberTexts(EachOrdered(id)) + MemberTexts(EachOrdered(examples))
                            + MemberTexts(EachOrdered(above))) + "}"
  {
    hide *;
    var i, a, e := EachOrdered(id), EachOrdered(above), EachOrdered(examples);
    OrdersEach(id + above + examples, []);
    OrdersEach(id + above, examples);
    OrdersEach(id, above);
    Regroup(i, a, e);
    SortVersion(i, a, e);
    ObjectText(id + above + examples, i + e + a);
    TextsJoin(i + e, a);
    TextsJoin(i, e);
  }

  lemma OneText(member: Member)
    ensures MemberTexts(EachOrdered([member])) == [Field(member.key, Canonical(member.value))]
    ensures Slot(EachOrdered([member]), member.key)
  {
    hide Text, Ordered, Quoted;
  }

  lemma SortVersion(id: seq<Member>, above: seq<Member>, examples: seq<Member>)
    requires Slot(id, "dataset_id") && Slot(above, "parent") && Slot(examples, "examples")
    ensures SortByKey(id + (above + examples)) == id + examples + above
  {
    EarlierLetter("dataset_id", "examples");
    EarlierLetter("dataset_id", "parent");
    EarlierLetter("examples", "parent");
    hide Less, SortByKey;
    SortOne(examples);
    assert examples == examples + [] && examples + above + [] == examples + above;
    SortFirst(above, examples, examples, []);
    SortFront(id, above + examples, examples + above);
    Regroup(id, examples, above);
  }
}

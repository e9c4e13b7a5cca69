/** Which contents an address tells apart (`ExampleBody::digest` of `src/evals.rs`), said of the bodies field by field,
    and what is therefore read back under it. */
module EvalContent {
  import opened Common
  import opened CanonicalJson
  import opened EvalState

  /** The same value but for the order of object members. */
  predicate SameJson(one: Json, other: Json) { Ordered(one) == Ordered(other) }

  predicate SameOption(one: Option<Json>, other: Option<Json>) {
    (one.None? && other.None?) || (one.Some? && other.Some? && SameJson(one.value, other.value))
  }

  predicate SameSource(one: Option<Provenance>, other: Option<Provenance>) {
    || (one.None? && other.None?)
    || (one.Some? && other.Some? && one.value.tenant == other.value.tenant && one.value.traceId == other.value.traceId
        && one.value.spanId == other.value.spanId)
  }

  predicate SameContent(one: Body, other: Body) {
    && SameJson(one.input, other.input) && SameOption(one.expected, other.expected)
    && one.split == other.split && SameSource(one.provenance, other.provenance)
  }

  // ---------------------------------------------------------------- members of an object

  lemma OrderedObject(one: seq<Member>, other: seq<Member>)
    ensures Ordered(Obj(one)) == Ordered(Obj(other)) ==> forall member ::
              member in OrderedMembers(Obj(one), one) <==> member in OrderedMembers(Obj(other), other)
    ensures OrderedMembers(Obj(one), one) == OrderedMembers(Obj(other), other) ==>
              Ordered(Obj(one)) == Ordered(Obj(other))
  {
    var left, right := OrderedMembers(Obj(one), one), OrderedMembers(Obj(other), other);
    assert Ordered(Obj(one)) == Obj(SortByKey(left)) && Ordered(Obj(other)) == Obj(SortByKey(right));
    hide Ordered, SortByKey;
    if Obj(SortByKey(left)) == Obj(SortByKey(right)) {
      assert multiset(left) == multiset(SortByKey(left)) == multiset(SortByKey(right)) == multiset(right);
      forall member
        ensures member in left <==> member in right
      {
        assert member in left <==> member in multiset(left);
        assert member in right <==> member in multiset(right);
      }
    }
  }

  /** Some member has the key and, its own members in order, the value. */
  predicate Has(members: seq<Member>, key: string, value: Json) {
    exists i :: 0 <= i < |members| && members[i].key == key && Ordered(members[i].value) == value
  }

  lemma OrderedHolds(members: seq<Member>, key: string, value: Json)
    ensures Member(key, value) in OrderedMembers(Obj(members), members) <==> Has(members, key, value)
  {
    hide Ordered;
    var ordered := OrderedMembers(Obj(members), members);
    if Member(key, value) in ordered {
      var i :| 0 <= i < |ordered| && ordered[i] == Member(key, value);
      assert members[i].key == key;
    }
    if i :| 0 <= i < |members| && members[i].key == key && Ordered(members[i].value) == value {
      assert ordered[i] == Member(key, value);
    }
  }

  /** What an object has under a key. */
  ghost predicate Under(members: seq<Member>, key: string, value: Option<Json>) {
    forall v :: Has(members, key, v) <==> value == Some(v)
  }

  lemma SameUnder(one: seq<Member>, other: seq<Member>, key: string, left: Option<Json>, right: Option<Json>)
    requires Ordered(Obj(one)) == Ordered(Obj(other)) && Under(one, key, left) && Under(other, key, right)
    ensures left == right
  {
    OrderedObject(one, other);
    if left.Some? {
      OrderedHolds(one, key, left.value);
      OrderedHolds(other, key, left.value);
    }
    if right.Some? {
      OrderedHolds(one, key, right.value);
      OrderedHolds(other, key, right.value);
    }
  }

  // ---------------------------------------------------------------- the members of a body

  /** Members that are there or not, one a key. */
  datatype Slot = Slot(key: string, value: Option<Json>)

  function Filled(slots: seq<Slot>): seq<Member> {
    if slots == [] then []
    else Filled(slots[..|slots| - 1]) + (var last := slots[|slots| - 1];
                                         if last.value.Some? then [Member(last.key, last.value.value)] else [])
  }

  predicate OneAKey(slots: seq<Slot>) {
    forall i, j :: 0 <= i < j < |slots| ==> slots[i].key != slots[j].key
  }

  predicate SlotHas(slots: seq<Slot>, key: string, value: Json) {
    exists k ::
      0 <= k < |slots| && slots[k].key == key && slots[k].value.Some? && Ordered(slots[k].value.value) == value
  }

  lemma HasMore(front: seq<Member>, last: Member, key: string, value: Json)
    ensures Has(front + [last], key, value)
            <==> Has(front, key, value) || (last.key == key && Ordered(last.value) == value)
  {
    hide Ordered;
    var more := front + [last];
    if i :| 0 <= i < |front| && front[i].key == key && Ordered(front[i].value) == value {
      assert more[i] == front[i];
    }
    if last.key == key && Ordered(last.value) == value {
      assert more[|front|] == last;
    }
  }

  lemma SlotMore(slots: seq<Slot>, key: string, value: Json)
    requires slots != []
    ensures var n := |slots| - 1;
            SlotHas(slots, key, value) <==>
            || SlotHas(slots[..n], key, value)
            || (slots[n].key == key && slots[n].value.Some? && Ordered(slots[n].value.value) == value)
  {
    hide Ordered;
    var n := |slots| - 1;
    var front := slots[..n];
    if k :| 0 <= k < n && front[k].key == key && front[k].value.Some? && Ordered(front[k].value.value) == value {
      assert slots[k] == front[k];
    }
    if k :| 0 <= k < |slots| && slots[k].key == key && slots[k].value.Some? && Ordered(slots[k].value.value) == value {
      assert k < n ==> front[k] == slots[k];
    }
  }

  lemma {:induction false} FilledHolds(slots: seq<Slot>, key: string, value: Json)
    ensures Has(Filled(slots), key, value) <==> SlotHas(slots, key, value)
  {
    if slots != [] {
      var n := |slots| - 1;
      FilledHolds(slots[..n], key, value);
      SlotMore(slots, key, value);
      if slots[n].value.Some? {
        HasMore(Filled(slots[..n]), Member(slots[n].key, slots[n].value.value), key, value);
      } else {
        assert Filled(slots) == Filled(slots[..n]);
      }
      hide Ordered, Has, SlotHas;
    }
  }

  lemma FilledUnder(slots: seq<Slot>, k: nat)
    requires OneAKey(slots) && k < |slots|
    ensures Under(Filled(slots), slots[k].key,
                  if slots[k].value.Some? then Some(Ordered(slots[k].value.value)) else None)
  {
    hide Ordered, Filled, Has;
    forall value
      ensures Has(Filled(slots), slots[k].key, value)
              <==> slots[k].value.Some? && Ordered(slots[k].value.value) == value
    {
      FilledHolds(slots, slots[k].key, value);
    }
  }

  // ---------------------------------------------------------------- bodies

  function TextSlot(key: string, text: string): Slot { Slot(key, if text == [] then None else Some(Str(text))) }

  function SourceSlots(source: Provenance): seq<Slot> {
    [TextSlot("tenant", source.tenant), TextSlot("trace_id", source.traceId), TextSlot("span_id", source.spanId)]
  }

  function SourceSlot(source: Option<Provenance>): Option<Json> {
    if source.Some? then Some(Obj(Filled(SourceSlots(source.value)))) else None
  }

  function BodySlots(body: Body): seq<Slot> {
    [Slot("input", Some(body.input)), Slot("expected", body.expected), TextSlot("split", body.split),
     Slot("provenance", SourceSlot(body.provenance))]
  }

  lemma Filled3(a: Slot, b: Slot, c: Slot)
    ensures Filled([a, b, c]) == Piece(a) + Piece(b) + Piece(c)
  {
    assert [a, b, c][..2] == [a, b] && [a, b][..1] == [a] && [a][..0] == [];
    assert Filled([a]) == Piece(a);
    assert Filled([a, b]) == Piece(a) + Piece(b);
  }

  function Piece(slot: Slot): seq<Member> {
    if slot.value.Some? then [Member(slot.key, slot.value.value)] else []
  }

  lemma Filled4(a: Slot, b: Slot, c: Slot, d: Slot)
    ensures Filled([a, b, c, d]) == Piece(a) + Piece(b) + Piece(c) + Piece(d)
  {
    assert [a, b, c, d][..3] == [a, b, c];
    Filled3(a, b, c);
  }

  lemma BodyIsFilled(body: Body)
    ensures BodyJson(body) == Obj(Filled(BodySlots(body)))
  {
    var slots := BodySlots(body);
    Filled4(slots[0], slots[1], slots[2], slots[3]);
    assert slots == [slots[0], slots[1], slots[2], slots[3]];
    if body.provenance.Some? {
      var inner := SourceSlots(body.provenance.value);
      Filled3(inner[0], inner[1], inner[2]);
      assert inner == [inner[0], inner[1], inner[2]];
    }
    hide Filled;
  }

  lemma KeysDiffer(body: Body)
    ensures OneAKey(BodySlots(body))
    ensures body.provenance.Some? ==> OneAKey(SourceSlots(body.provenance.value))
  {
    assert "input"[0] == 'i' && "split"[0] == 's' && "trace_id"[0] == 't';
    assert |"input"| == |"split"| == 5 && |"expected"| == 8 && |"provenance"| == 10;
    assert |"tenant"| == 6 && |"trace_id"| == 8 && |"span_id"| == 7;
    hide TextSlot, Filled;
    var slots := BodySlots(body);
    assert slots[0].key == "input" && slots[1].key == "expected" && slots[2].key == TextSlot("split", body.split).key;
  }

  function OrderedOption(value: Option<Json>): Option<Json> {
    if value.Some? then Some(Ordered(value.value)) else None
  }

  /** The same slots, up to the order of members inside their values. */
  predicate SameSlots(one: seq<Slot>, other: seq<Slot>) {
    |one| == |other| && forall k :: 0 <= k < |one| ==>
      one[k].key == other[k].key && OrderedOption(one[k].value) == OrderedOption(other[k].value)
  }

  lemma SlotAgrees(one: seq<Slot>, other: seq<Slot>, k: nat)
    requires OneAKey(one) && OneAKey(other) && k < |one| == |other| && one[k].key == other[k].key
    requires Ordered(Obj(Filled(one))) == Ordered(Obj(Filled(other)))
    ensures OrderedOption(one[k].value) == OrderedOption(other[k].value)
  {
    FilledUnder(one, k);
    FilledUnder(other, k);
    hide Ordered, Filled, Under;
    SameUnder(Filled(one), Filled(other), one[k].key, OrderedOption(one[k].value), OrderedOption(other[k].value));
  }

  lemma {:induction false} FilledSame(one: seq<Slot>, other: seq<Slot>)
    requires SameSlots(one, other)
    ensures |Filled(one)| == |Filled(other)|
    ensures forall i :: 0 <= i < |Filled(one)| ==>
              Filled(one)[i].key == Filled(other)[i].key
              && Ordered(Filled(one)[i].value) == Ordered(Filled(other)[i].value)
  {
    hide Ordered;
    if one != [] {
      var n := |one| - 1;
      assert one[n].key == other[n].key && OrderedOption(one[n].value) == OrderedOption(other[n].value);
      FilledSame(one[..n], other[..n]);
    }
  }

  lemma SlotsIdentify(one: seq<Slot>, other: seq<Slot>)
    requires OneAKey(one) && OneAKey(other) && |one| == |other|
    requires forall k :: 0 <= k < |one| ==> one[k].key == other[k].key
    ensures Ordered(Obj(Filled(one))) == Ordered(Obj(Filled(other))) <==> SameSlots(one, other)
  {
    hide Ordered, Filled, OrderedOption;
    if SameSlots(one, other) {
      FilledSame(one, other);
      var left, right := Filled(one), Filled(other);
      assert OrderedMembers(Obj(left), left) == OrderedMembers(Obj(right), right);
      OrderedObject(left, right);
    }
    if Ordered(Obj(Filled(one))) == Ordered(Obj(Filled(other))) {
      forall k | 0 <= k < |one|
        ensures OrderedOption(one[k].value) == OrderedOption(other[k].value)
      {
        SlotAgrees(one, other, k);
      }
    }
  }

  lemma TextSlots(key: string, one: string, other: string)
    ensures OrderedOption(TextSlot(key, one).value) == OrderedOption(TextSlot(key, other).value) <==> one == other
  {
  }

  lemma SourcesIdentify(one: Provenance, other: Provenance)
    requires OneAKey(SourceSlots(one)) && OneAKey(SourceSlots(other))
    ensures SameJson(Obj(Filled(SourceSlots(one))), Obj(Filled(SourceSlots(other)))) <==> one == other
  {
    SlotsIdentify(SourceSlots(one), SourceSlots(other));
    TextSlots("tenant", one.tenant, other.tenant);
    TextSlots("trace_id", one.traceId, other.traceId);
    TextSlots("span_id", one.spanId, other.spanId);
    hide Ordered, Filled, OrderedOption;
    var left, right := SourceSlots(one), SourceSlots(other);
    assert left[0] == TextSlot("tenant", one.tenant) && left[1] == TextSlot("trace_id", one.traceId)
           && left[2] == TextSlot("span_id", one.spanId);
    assert right[0] == TextSlot("tenant", other.tenant) && right[1] == TextSlot("trace_id", other.traceId)
           && right[2] == TextSlot("span_id", other.spanId);
  }

  lemma BodySlotsSame(one: Body, other: Body)
    ensures SameSlots(BodySlots(one), BodySlots(other)) <==>
            && OrderedOption(Some(one.input)) == OrderedOption(Some(other.input))
            && OrderedOption(one.expected) == OrderedOption(other.expected)
            && OrderedOption(TextSlot("split", one.split).value) == OrderedOption(TextSlot("split", other.split).value)
            && OrderedOption(SourceSlot(one.provenance)) == OrderedOption(SourceSlot(other.provenance))
  {
    var left, right := BodySlots(one), BodySlots(other);
    assert left[0] == Slot("input", Some(one.input)) && left[1] == Slot("expected", one.expected);
    assert left[2] == TextSlot("split", one.split) && left[3] == Slot("provenance", SourceSlot(one.provenance));
    assert right[0] == Slot("input", Some(other.input)) && right[1] == Slot("expected", other.expected);
    assert right[2] == TextSlot("split", other.split) && right[3] == Slot("provenance", SourceSlot(other.provenance));
    assert left[2].key == right[2].key;
    assert |left| == |right| == 4;
    hide OrderedOption, TextSlot, SourceSlot, BodySlots;
  }

  lemma SourceSlotSame(one: Option<Provenance>, other: Option<Provenance>)
    requires one.Some? ==> OneAKey(SourceSlots(one.value))
    requires other.Some? ==> OneAKey(SourceSlots(other.value))
    ensures OrderedOption(SourceSlot(one)) == OrderedOption(SourceSlot(other)) <==> SameSource(one, other)
  {
    if one.Some? && other.Some? {
      SourcesIdentify(one.value, other.value);
    }
    hide Ordered, Filled, SourceSlots;
  }

  lemma OptionSame(one: Option<Json>, other: Option<Json>)
    ensures OrderedOption(one) == OrderedOption(other) <==> SameOption(one, other)
  {
    hide Ordered;
  }

  lemma BodiesIdentify(one: Body, other: Body)
    ensures SameJson(BodyJson(one), BodyJson(other)) <==> SameContent(one, other)
  {
    BodyIsFilled(one);
    BodyIsFilled(other);
    KeysDiffer(one);
    KeysDiffer(other);
    BodySlotsSame(one, other);
    OptionSame(Some(one.input), Some(other.input));
    OptionSame(one.expected, other.expected);
    TextSlots("split", one.split, other.split);
    SourceSlotSame(one.provenance, other.provenance);
    SameKeys(one, other);
    hide Ordered, Filled, BodyJson, OneAKey, SourceSlot, BodySlots, TextSlot, OrderedOption, SameSource, SameSlots;
    SlotsIdentify(BodySlots(one), BodySlots(other));
  }

  lemma SameKeys(one: Body, other: Body)
    ensures |BodySlots(one)| == |BodySlots(other)|
    ensures forall k :: 0 <= k < |BodySlots(one)| ==> BodySlots(one)[k].key == BodySlots(other)[k].key
  {
    hide SourceSlots, Filled;
  }

  // ---------------------------------------------------------------- addresses

  /** Two bodies share an address exactly when their inputs and what they expect are the same values up to the order of
      object members, and their splits and sources are the same. */
  lemma AddressIdentifiesContent(hash: Hash, one: Body, other: Body)
    requires Injective(hash)
    ensures Digest(hash, one) == Digest(hash, other) <==> SameContent(one, other)
  {
    BodiesIdentify(one, other);
    hide BodyJson, Ordered, SameContent;
    if Digest(hash, one) == Digest(hash, other) {
      hide Canonical;
      SameOrdered(BodyJson(one), BodyJson(other));
    }
  }

  /** The same with nothing but the values themselves. */
  lemma AddressIdentifiesBody(hash: Hash, one: Body, other: Body)
    requires Injective(hash) && Keyed(one.input) && Keyed(other.input)
    requires one.expected.Some? ==> Keyed(one.expected.value)
    requires other.expected.Some? ==> Keyed(other.expected.value)
    ensures Digest(hash, one) == Digest(hash, other) <==>
            && Equivalent(one.input, other.input)
            && (one.expected.Some? <==> other.expected.Some?)
            && (one.expected.Some? && other.expected.Some? ==> Equivalent(one.expected.value, other.expected.value))
            && one.split == other.split
            && (one.provenance.Some? <==> other.provenance.Some?)
            && (one.provenance.Some? && other.provenance.Some? ==>
                  && one.provenance.value.tenant == other.provenance.value.tenant
                  && one.provenance.value.traceId == other.provenance.value.traceId
                  && one.provenance.value.spanId == other.provenance.value.spanId)
  {
    AddressIdentifiesContent(hash, one, other);
    OrderedIdentifies(one.input, other.input);
    if one.expected.Some? && other.expected.Some? {
      OrderedIdentifies(one.expected.value, other.expected.value);
    }
    hide Digest, Equivalent, Keyed, Ordered;
  }

  /** What is kept of a body that was asked for: all of it up to the order of members, or all but a null it expected. */
  predicate Keeps(stored: Body, asked: Body) {
    SameContent(stored, asked)
    || (asked.expected == Some(Null) && stored.expected.None? && SameContent(stored, asked.(expected := None)))
  }

  /** The body found under the address of another is that other. */
  lemma FoundBodyIsTheSame(hash: Hash, stored: Body, asked: Body)
    requires Injective(hash) && Addresses(hash, Digest(hash, asked), stored)
    ensures Keeps(stored, asked)
    ensures Digest(hash, asked) == Digest(hash, stored) ==> SameContent(stored, asked)
  {
    AddressIdentifiesContent(hash, stored, asked);
    AddressIdentifiesContent(hash, stored.(expected := Some(Null)), asked);
    hide Digest;
    if Digest(hash, asked) != Digest(hash, stored) {
      OnlyNullIsNull(asked.expected.value);
    }
  }

  lemma OnlyNullIsNull(json: Json)
    ensures SameJson(Null, json) <==> json == Null
  {
  }
}

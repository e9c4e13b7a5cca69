/** The canonical text of a JSON value (`canonical_json` of `src/evals.rs`), proved to identify values up to the order
    of object members: the identity every content address of the eval log rests on. */
module CanonicalJson {
  import opened Common

  /** A JSON value with integer numbers. An object is a list of members; `Keyed` says their keys differ. */
  datatype Json =
    | Null
    | Bool(truth: bool)
    | Number(number: int)
    | Str(text: string)
    | Arr(items: seq<Json>)
    | Obj(members: seq<Member>)

  datatype Member = Member(key: string, value: Json)

  ghost predicate Keyed(json: Json) {
    match json
    case Arr(items) => forall i :: 0 <= i < |items| ==> Keyed(items[i])
    case Obj(members) =>
      && DistinctKeys(members)
      && forall i :: 0 <= i < |members| ==> Keyed(members[i].value)
    case _ => true
  }

  predicate DistinctKeys(members: seq<Member>) {
    forall i, j :: 0 <= i < j < |members| ==> members[i].key != members[j].key
  }

  /** The same value, whatever order the members of its objects are in. */
  ghost predicate Equivalent(one: Json, other: Json)
    decreases one, 1
  {
    match one
    case Arr(items) =>
      && other.Arr? && |items| == |other.items|
      && forall i :: 0 <= i < |items| ==> Equivalent(items[i], other.items[i])
    case Obj(members) =>
      && other.Obj? && |members| == |other.members|
      && forall i :: 0 <= i < |members| ==> Matched(one, other.members, i)
    case _ => one == other
  }

  /** Some member of the other object has the key and an equivalent value. */
  ghost predicate Matched(owner: Json, others: seq<Member>, i: nat)
    requires owner.Obj? && i < |owner.members|
    decreases owner, 0
  {
    var member := owner.members[i];
    exists j :: 0 <= j < |others| && member.key == others[j].key && Equivalent(member.value, others[j].value)
  }

  // ---------------------------------------------------------------- strings

  /** The letter of a two-character escape. */
  function Letter(c: char): Option<char> {
    if c == '\"' then Some('\"')
    else if c == '\\' then Some('\\')
    else if c as int == 8 then Some('b')
    else if c as int == 12 then Some('f')
    else if c == '\n' then Some('n')
    else if c == '\r' then Some('r')
    else if c == '\t' then Some('t')
    else None
  }

  function EscapeChar(c: char): string {
    if Letter(c).Some? then ['\\', Letter(c).value]
    else if c as int < 32 then ['\\', 'u', '0', '0', HexDigit(c as int / 16), HexDigit(c as int % 16)]
    else [c]
  }

  function Escaped(text: string): string {
    if text == [] then [] else EscapeChar(text[0]) + Escaped(text[1..])
  }

  function Quoted(text: string): string {
    ['\"'] + Escaped(text) + ['\"']
  }

  function HexValue(c: char): Option<nat> {
    if '0' <= c <= '9' then Some((c - '0') as nat)
    else if 'a' <= c <= 'f' then Some((c - 'a') as nat + 10)
    else if 'A' <= c <= 'F' then Some((c - 'A') as nat + 10)
    else None
  }

  /** What a backslash and this letter stand for in section 7 of RFC 8259. */
  function EscapeMeans(letter: char): Option<char> {
    match letter
    case '\"' => Some('\"')
    case '\\' => Some('\\')
    case '/' => Some('/')
    case 'b' => Some(8 as char)
    case 'f' => Some(12 as char)
    case 'n' => Some(10 as char)
    case 'r' => Some(13 as char)
    case 't' => Some(9 as char)
    case _ => None
  }

  /** The character at the front of a string's text by section 7 of RFC 8259, `\u` escapes below 256 only. */
  function FrontChar(text: string): (r: Option<(char, string)>)
    ensures r.Some? ==> |r.value.1| < |text|
  {
    if text == "" || text[0] as int < 32 || text[0] == '\"' then None
    else if text[0] != '\\' then Some((text[0], text[1..]))
    else if |text| < 2 then None
    else if text[1] != 'u' then
      match EscapeMeans(text[1])
      case None => None
      case Some(c) => Some((c, text[2..]))
    else if |text| < 6 || text[2] != '0' || text[3] != '0' then None
    else
      match (HexValue(text[4]), HexValue(text[5]))
      case (Some(high), Some(low)) => Some(((16 * high + low) as char, text[6..]))
      case _ => None
  }

  /** A character's escape is read as that character, and is the short one where there is one. */
  lemma EscapeReads(c: char, rest: string)
    ensures FrontChar(EscapeChar(c) + rest) == Some((c, rest))
    ensures |EscapeChar(c)| == if c < ' ' && c as int !in {8, 9, 10, 12, 13} then 6
                               else if c < ' ' || c == '\"' || c == '\\' then 2 else 1
  {
    var text := EscapeChar(c) + rest;
    assert text[|EscapeChar(c)|..] == rest;
    if |EscapeChar(c)| == 6 {
      assert HexValue(HexDigit(c as int / 16)) == Some(c as int / 16);
      assert HexValue(HexDigit(c as int % 16)) == Some(c as int % 16);
    }
  }

  /** The string whose text is closed by the first quotation mark no escape takes. */
  function ReadString(text: string): Option<(string, string)>
    decreases |text|
  {
    if text != "" && text[0] == '\"' then Some(("", text[1..]))
    else
      match FrontChar(text)
      case None => None
      case Some((c, after)) =>
        match ReadString(after)
        case None => None
        case Some((more, rest)) => Some(([c] + more, rest))
  }

  /** A written string reads back as its text. */
  lemma {:induction false} StringReadsBack(text: string, rest: string)
    ensures ReadString(Escaped(text) + ['\"'] + rest) == Some((text, rest))
  {
    hide EscapeChar, FrontChar;
    var written := Escaped(text) + ['\"'] + rest;
    Opening(text, rest);
    if text == "" {
      assert written[1..] == rest;
    } else {
      var after := Escaped(text[1..]) + ['\"'] + rest;
      assert written == EscapeChar(text[0]) + after;
      EscapeReads(text[0], after);
      StringReadsBack(text[1..], rest);
      assert text == [text[0]] + text[1..];
    }
  }

  /** No escape is the beginning of another. */
  lemma EscapeOnce(c: char, d: char, x: string, y: string)
    requires EscapeChar(c) + x == EscapeChar(d) + y
    ensures c == d && x == y
  {
    var left, right := EscapeChar(c) + x, EscapeChar(d) + y;
    assert left[0] == right[0];
    assert |EscapeChar(c)| > 1 && |EscapeChar(d)| > 1 ==> left[1] == right[1];
    assert |EscapeChar(c)| == |EscapeChar(d)|;
    assert |EscapeChar(c)| == 6 ==> left[4] == right[4] && left[5] == right[5];
    assert c == d;
    assert left[|EscapeChar(c)|..] == x && right[|EscapeChar(d)|..] == y;
  }

  /** A quoted string ends where it says, whatever follows. */
  lemma {:induction false} EscapedOnce(one: string, other: string, x: string, y: string)
    requires Escaped(one) + ['\"'] + x == Escaped(other) + ['\"'] + y
    ensures one == other && x == y
    decreases |one|
  {
    hide EscapeChar;
    var left, right := Escaped(one) + ['\"'] + x, Escaped(other) + ['\"'] + y;
    Opening(one, x);
    Opening(other, y);
    assert left[0] == right[0];
    if one == [] && other == [] {
      assert left[1..] == x && right[1..] == y;
    } else {
      var xs, ys := Escaped(one[1..]) + ['\"'] + x, Escaped(other[1..]) + ['\"'] + y;
      assert left == EscapeChar(one[0]) + xs && right == EscapeChar(other[0]) + ys;
      EscapeOnce(one[0], other[0], xs, ys);
      EscapedOnce(one[1..], other[1..], x, y);
      assert one == [one[0]] + one[1..] && other == [other[0]] + other[1..];
    }
  }

  lemma Opening(text: string, rest: string)
    ensures (Escaped(text) + ['\"'] + rest)[0] == '\"' <==> text == []
  {
    if text != [] {
      assert (Escaped(text) + ['\"'] + rest)[0] == EscapeChar(text[0])[0];
    }
  }

  lemma QuotedOnce(one: string, other: string, x: string, y: string)
    requires Quoted(one) + x == Quoted(other) + y
    ensures one == other && x == y
  {
    var left, right := Escaped(one) + ['\"'] + x, Escaped(other) + ['\"'] + y;
    assert (Quoted(one) + x)[1..] == left && (Quoted(other) + y)[1..] == right;
    EscapedOnce(one, other, x, y);
  }

  // ---------------------------------------------------------------- numbers

  function Digits(n: nat): (text: string)
    ensures |text| > 0
  {
    if n < 10 then [HexDigit(n)] else Digits(n / 10) + [HexDigit(n % 10)]
  }

  function Decimal(n: int): string {
    if n < 0 then ['-'] + Digits(-n) else Digits(n)
  }

  predicate IsDigit(c: char) { '0' <= c <= '9' }

  /** What may follow a number: nothing, or something that is no digit. */
  predicate Delimits(rest: string) { rest == [] || !IsDigit(rest[0]) }

  lemma {:induction false} DigitsAreDigits(n: nat)
    ensures forall i :: 0 <= i < |Digits(n)| ==> IsDigit(Digits(n)[i])
  {
    if n >= 10 {
      DigitsAreDigits(n / 10);
    }
  }

  lemma {:induction false} SameDigits(n: nat, m: nat)
    requires Digits(n) == Digits(m)
    ensures n == m
  {
    if n >= 10 && m >= 10 {
      var near, far := Digits(n), Digits(m);
      assert near[..|near| - 1] == Digits(n / 10) && far[..|far| - 1] == Digits(m / 10);
      assert near[|near| - 1] == HexDigit(n % 10) && far[|far| - 1] == HexDigit(m % 10);
      SameDigits(n / 10, m / 10);
    }
  }

  /** How many digits a text begins with. */
  function Run(text: string): nat {
    if text != [] && IsDigit(text[0]) then 1 + Run(text[1..]) else 0
  }

  lemma {:induction false} LeadingRun(digits: string, rest: string)
    requires (forall i :: 0 <= i < |digits| ==> IsDigit(digits[i])) && Delimits(rest)
    ensures Run(digits + rest) == |digits|
  {
    if digits == [] {
      assert digits + rest == rest;
    } else {
      assert (digits + rest)[1..] == digits[1..] + rest;
      LeadingRun(digits[1..], rest);
    }
  }

  lemma DigitsOnce(n: nat, m: nat, x: string, y: string)
    requires Digits(n) + x == Digits(m) + y && Delimits(x) && Delimits(y)
    ensures n == m && x == y
  {
    DigitsAreDigits(n);
    DigitsAreDigits(m);
    var left, right := Digits(n) + x, Digits(m) + y;
    LeadingRun(Digits(n), x);
    LeadingRun(Digits(m), y);
    assert left[..|Digits(n)|] == Digits(n) && right[..|Digits(n)|] == Digits(m);
    assert left[|Digits(n)|..] == x && right[|Digits(n)|..] == y;
    SameDigits(n, m);
  }

  lemma DecimalOnce(n: int, m: int, x: string, y: string)
    requires Decimal(n) + x == Decimal(m) + y && Delimits(x) && Delimits(y)
    ensures n == m && x == y
  {
    hide Digits, Delimits;
    SameSign(n, m, x, y);
    if n < 0 {
      AfterFirst('-', Digits(-n), x);
      AfterFirst('-', Digits(-m), y);
      DigitsOnce(-n, -m, x, y);
    } else {
      DigitsOnce(n, m, x, y);
    }
  }

  lemma AfterFirst(first: char, body: string, rest: string)
    ensures ([first] + body + rest)[1..] == body + rest
  {
  }

  lemma SameSign(n: int, m: int, x: string, y: string)
    requires Decimal(n) + x == Decimal(m) + y
    ensures n < 0 <==> m < 0
  {
    hide Decimal;
    DecimalStart(n);
    DecimalStart(m);
    assert (Decimal(n) + x)[0] == Decimal(n)[0] && (Decimal(m) + y)[0] == Decimal(m)[0];
  }

  lemma DecimalStart(n: int)
    ensures |Decimal(n)| > 0
    ensures n < 0 ==> Decimal(n)[0] == '-'
    ensures n >= 0 ==> IsDigit(Decimal(n)[0])
  {
    hide Digits;
    if n >= 0 {
      DigitsAreDigits(n);
    }
  }

  // ---------------------------------------------------------------- the text of a value, members as they stand

  function Text(json: Json): string
    decreases json, 0
  {
    match json
    case Null => ['n', 'u', 'l', 'l']
    case Bool(truth) => if truth then ['t', 'r', 'u', 'e'] else ['f', 'a', 'l', 's', 'e']
    case Number(number) => Decimal(number)
    case Str(text) => Quoted(text)
    case Arr(items) => ['['] + ItemsText(json, items) + [']']
    case Obj(members) => ['{'] + MembersText(json, members) + ['}']
  }

  /** The items of an array: `owner` bounds the recursion. */
  function ItemsText(owner: Json, items: seq<Json>): string
    requires forall i :: 0 <= i < |items| ==> items[i] < owner
    decreases owner, 0, |items|
  {
    if items == [] then []
    else if |items| == 1 then Text(items[0])
    else Text(items[0]) + [','] + ItemsText(owner, items[1..])
  }

  function MembersText(owner: Json, members: seq<Member>): string
    requires forall i :: 0 <= i < |members| ==> members[i].value < owner
    decreases owner, 0, |members|
  {
    if members == [] then []
    else if |members| == 1 then MemberText(members[0])
    else MemberText(members[0]) + [','] + MembersText(owner, members[1..])
  }

  function MemberText(member: Member): string
    decreases member.value, 1
  {
    Quoted(member.key) + [':'] + Text(member.value)
  }

  // ---------------------------------------------------------------- reading a text back

  /** Where a value starts decides what it is. */
  datatype Kind = OfNull | OfTrue | OfFalse | OfNumber | OfStr | OfArr | OfObj

  function KindOf(json: Json): Kind {
    match json
    case Null => OfNull
    case Bool(truth) => if truth then OfTrue else OfFalse
    case Number(_) => OfNumber
    case Str(_) => OfStr
    case Arr(_) => OfArr
    case Obj(_) => OfObj
  }

  function KindAt(c: char): Kind {
    if c == 'n' then OfNull else if c == 't' then OfTrue else if c == 'f' then OfFalse
    else if c == '\"' then OfStr else if c == '[' then OfArr else if c == '{' then OfObj else OfNumber
  }

  lemma FirstChar(json: Json)
    ensures |Text(json)| > 0 && KindAt(Text(json)[0]) == KindOf(json) && Text(json)[0] != ']' && Text(json)[0] != '}'
  {
    hide Decimal, Escaped, ItemsText, MembersText;
    if json.Number? {
      DecimalStart(json.number);
    }
  }

  lemma SameKind(one: Json, other: Json, x: string, y: string)
    requires Text(one) + x == Text(other) + y
    ensures KindOf(one) == KindOf(other)
  {
    hide Text;
    FirstChar(one);
    FirstChar(other);
    assert (Text(one) + x)[0] == Text(one)[0] && (Text(other) + y)[0] == Text(other)[0];
  }

  /** The text of a value can be read only one way, up to what delimits it: the decoding is unique. */
  lemma {:induction false} TextOnce(one: Json, other: Json, x: string, y: string)
    requires Text(one) + x == Text(other) + y && Delimits(x) && Delimits(y)
    ensures one == other && x == y
    decreases one, 0
  {
    hide Decimal, Quoted, ItemsText, MembersText;
    SameKind(one, other, x, y);
    match one
    case Number(n) => DecimalOnce(n, other.number, x, y);
    case Str(text) => QuotedOnce(text, other.text, x, y);
    case Arr(items) =>
      var left, right := ItemsText(one, items) + [']'] + x, ItemsText(other, other.items) + [']'] + y;
      assert (Text(one) + x)[1..] == left && (Text(other) + y)[1..] == right;
      ItemsOnce(one, other, items, other.items, x, y);
    case Obj(members) =>
      var left, right := MembersText(one, members) + ['}'] + x, MembersText(other, other.members) + ['}'] + y;
      assert (Text(one) + x)[1..] == left && (Text(other) + y)[1..] == right;
      MembersOnce(one, other, members, other.members, x, y);
    case _ =>
      assert (Text(one) + x)[|Text(one)|..] == x && (Text(other) + y)[|Text(one)|..] == y;
  }

  /** What follows the first item of an array: its closing bracket, or a comma and the items after it. */
  function AfterItem(owner: Json, items: seq<Json>, rest: string): string
    requires items != [] && forall i :: 0 <= i < |items| ==> items[i] < owner
  {
    if |items| == 1 then [']'] + rest else [','] + (ItemsText(owner, items[1..]) + [']'] + rest)
  }

  lemma ItemsSplit(owner: Json, items: seq<Json>, rest: string)
    requires items != [] && forall i :: 0 <= i < |items| ==> items[i] < owner
    ensures ItemsText(owner, items) + [']'] + rest == Text(items[0]) + AfterItem(owner, items, rest)
  {
    hide Text;
  }

  lemma {:induction false} ItemsOnce(owner: Json, otherOwner: Json, one: seq<Json>, other: seq<Json>, x: string,
                                     y: string)
    requires forall i :: 0 <= i < |one| ==> one[i] < owner
    requires forall i :: 0 <= i < |other| ==> other[i] < otherOwner
    requires ItemsText(owner, one) + [']'] + x == ItemsText(otherOwner, other) + [']'] + y
    ensures one == other && x == y
    decreases owner, 0, |one|
  {
    hide Text;
    ItemsOpen(owner, one, x);
    ItemsOpen(otherOwner, other, y);
    if one == [] && other == [] {
      assert (ItemsText(owner, one) + [']'] + x)[1..] == x && (ItemsText(otherOwner, other) + [']'] + y)[1..] == y;
    } else {
      ItemsSplit(owner, one, x);
      ItemsSplit(otherOwner, other, y);
      var left, right := AfterItem(owner, one, x), AfterItem(otherOwner, other, y);
      TextOnce(one[0], other[0], left, right);
      assert left[0] == right[0] && left[1..] == right[1..];
      assert one == [one[0]] + one[1..] && other == [other[0]] + other[1..];
      if |one| > 1 {
        ItemsOnce(owner, otherOwner, one[1..], other[1..], x, y);
      }
    }
  }

  lemma ItemsOpen(owner: Json, items: seq<Json>, rest: string)
    requires forall i :: 0 <= i < |items| ==> items[i] < owner
    ensures (ItemsText(owner, items) + [']'] + rest)[0] == ']' <==> items == []
  {
    hide Text;
    if items != [] {
      ItemsSplit(owner, items, rest);
      FirstChar(items[0]);
      assert (Text(items[0]) + AfterItem(owner, items, rest))[0] == Text(items[0])[0];
    }
  }

  function AfterMember(owner: Json, members: seq<Member>, rest: string): string
    requires members != [] && forall i :: 0 <= i < |members| ==> members[i].value < owner
  {
    if |members| == 1 then ['}'] + rest else [','] + (MembersText(owner, members[1..]) + ['}'] + rest)
  }

  lemma MembersSplit(owner: Json, members: seq<Member>, rest: string)
    requires members != [] && forall i :: 0 <= i < |members| ==> members[i].value < owner
    ensures MembersText(owner, members) + ['}'] + rest
            == Quoted(members[0].key) + ([':'] + (Text(members[0].value) + AfterMember(owner, members, rest)))
  {
    hide Text, Quoted, MembersText, AfterMember;
    FirstMember(owner, members, rest);
    MemberRegroups(Quoted(members[0].key), Text(members[0].value), AfterMember(owner, members, rest));
  }

  lemma FirstMember(owner: Json, members: seq<Member>, rest: string)
    requires members != [] && forall i :: 0 <= i < |members| ==> members[i].value < owner
    ensures MembersText(owner, members) + ['}'] + rest == MemberText(members[0]) + AfterMember(owner, members, rest)
  {
    hide MemberText;
  }

  lemma MemberRegroups(key: string, value: string, rest: string)
    ensures (key + [':'] + value) + rest == key + ([':'] + (value + rest))
  {
  }

  lemma {:induction false} MembersOnce(owner: Json, otherOwner: Json, one: seq<Member>, other: seq<Member>, x: string,
                                       y: string)
    requires forall i :: 0 <= i < |one| ==> one[i].value < owner
    requires forall i :: 0 <= i < |other| ==> other[i].value < otherOwner
    requires MembersText(owner, one) + ['}'] + x == MembersText(otherOwner, other) + ['}'] + y
    ensures one == other && x == y
    decreases owner, 0, |one|
  {
    hide Text, Quoted;
    MembersOpen(owner, one, x);
    MembersOpen(otherOwner, other, y);
    if one == [] && other == [] {
      assert (MembersText(owner, one) + ['}'] + x)[1..] == x && (MembersText(otherOwner, other) + ['}'] + y)[1..] == y;
    } else {
      MembersSplit(owner, one, x);
      MembersSplit(otherOwner, other, y);
      var left, right := AfterMember(owner, one, x), AfterMember(otherOwner, other, y);
      var leftValue, rightValue := Text(one[0].value) + left, Text(other[0].value) + right;
      QuotedOnce(one[0].key, other[0].key, [':'] + leftValue, [':'] + rightValue);
      assert ([':'] + leftValue)[1..] == leftValue && ([':'] + rightValue)[1..] == rightValue;
      TextOnce(one[0].value, other[0].value, left, right);
      assert left[0] == right[0] && left[1..] == right[1..];
      assert one == [one[0]] + one[1..] && other == [other[0]] + other[1..];
      if |one| > 1 {
        MembersOnce(owner, otherOwner, one[1..], other[1..], x, y);
      }
    }
  }

  lemma MembersOpen(owner: Json, members: seq<Member>, rest: string)
    requires forall i :: 0 <= i < |members| ==> members[i].value < owner
    ensures (MembersText(owner, members) + ['}'] + rest)[0] == '}' <==> members == []
  {
    hide Text;
    if members != [] {
      MembersSplit(owner, members, rest);
    }
  }

  // ---------------------------------------------------------------- members in key order

  /** Strings compared character by character: for UTF-8 text this is the order of the bytes. */
  predicate Less(a: string, b: string) {
    b != [] && (a == [] || a[0] < b[0] || (a[0] == b[0] && Less(a[1..], b[1..])))
  }

  lemma {:induction false} LessTotal(a: string, b: string)
    ensures Less(a, b) || Less(b, a) || a == b
    ensures !(Less(a, b) && Less(b, a)) && (a == b ==> !Less(a, b))
  {
    if a != [] && b != [] && a[0] == b[0] {
      LessTotal(a[1..], b[1..]);
      assert a == [a[0]] + a[1..] && b == [b[0]] + b[1..];
    }
  }

  lemma {:induction false} LessTransitive(a: string, b: string, c: string)
    requires Less(a, b) && Less(b, c)
    ensures Less(a, c)
  {
    if a != [] && a[0] == b[0] == c[0] {
      LessTransitive(a[1..], b[1..], c[1..]);
    }
  }

  predicate Ascending(members: seq<Member>) {
    forall i, j :: 0 <= i < j < |members| ==> Less(members[i].key, members[j].key)
  }

  function Insert(member: Member, sorted: seq<Member>): (r: seq<Member>)
    ensures multiset(r) == multiset([member]) + multiset(sorted)
  {
    if sorted == [] || Less(member.key, sorted[0].key) then [member] + sorted
    else
      assert sorted == [sorted[0]] + sorted[1..];
      [sorted[0]] + Insert(member, sorted[1..])
  }

  function SortByKey(members: seq<Member>): (r: seq<Member>)
    ensures multiset(r) == multiset(members)
  {
    if members == [] then []
    else
      assert members == [members[0]] + members[1..];
      Insert(members[0], SortByKey(members[1..]))
  }

  lemma InSorted(members: seq<Member>, sorted: seq<Member>, member: Member)
    requires multiset(sorted) == multiset(members)
    ensures member in sorted <==> member in members
  {
    assert member in sorted <==> member in multiset(sorted);
    assert member in members <==> member in multiset(members);
  }

  lemma {:induction false} InsertAscends(member: Member, sorted: seq<Member>)
    requires Ascending(sorted) && forall i :: 0 <= i < |sorted| ==> sorted[i].key != member.key
    ensures Ascending(Insert(member, sorted))
  {
    if sorted == [] {
    } else if Less(member.key, sorted[0].key) {
      forall j | 0 <= j < |sorted|
        ensures Less(member.key, sorted[j].key)
      {
        if j > 0 {
          LessTransitive(member.key, sorted[0].key, sorted[j].key);
        }
      }
    } else {
      LessTotal(member.key, sorted[0].key);
      var rest := Insert(member, sorted[1..]);
      InsertAscends(member, sorted[1..]);
      forall j | 0 <= j < |rest|
        ensures Less(sorted[0].key, rest[j].key)
      {
        InSorted([member] + sorted[1..], rest, rest[j]);
      }
    }
  }

  lemma {:induction false} SortAscends(members: seq<Member>)
    requires DistinctKeys(members)
    ensures Ascending(SortByKey(members))
  {
    if members != [] {
      var rest := SortByKey(members[1..]);
      SortAscends(members[1..]);
      forall i | 0 <= i < |rest|
        ensures rest[i].key != members[0].key
      {
        InSorted(members[1..], rest, rest[i]);
      }
      InsertAscends(members[0], rest);
    }
  }

  lemma AscendingPlace(sorted: seq<Member>, j: nat, k: nat)
    requires Ascending(sorted) && j < |sorted| && k < |sorted| && Less(sorted[j].key, sorted[k].key)
    ensures j < k
  {
    LessTotal(sorted[j].key, sorted[k].key);
  }

  /** Two ascending lists of one length, one inside the other, are the same list. */
  lemma {:induction false} AscendingOnce(one: seq<Member>, other: seq<Member>)
    requires Ascending(one) && Ascending(other)
    requires forall i :: 0 <= i < |one| ==> one[i] in other
    ensures |one| <= |other|
    ensures |one| == |other| ==> one == other
  {
    if one != [] {
      var j :| 0 <= j < |other| && other[j] == one[0];
      forall i | 0 <= i < |one| - 1
        ensures one[1..][i] in other[j + 1..]
      {
        var k :| 0 <= k < |other| && other[k] == one[i + 1];
        assert Less(one[0].key, one[i + 1].key);
        AscendingPlace(other, j, k);
        assert other[j + 1..][k - j - 1] == other[k];
      }
      AscendingOnce(one[1..], other[j + 1..]);
      assert one == [one[0]] + one[1..];
      assert j == 0 ==> other == [other[0]] + other[1..];
    }
  }

  // ---------------------------------------------------------------- the canonical text

  /** The value with the members of every object in key order. */
  function Ordered(json: Json): Json {
    match json
    case Arr(items) => Arr(seq(|items|, i requires 0 <= i < |items| => Ordered(items[i])))
    case Obj(members) => Obj(SortByKey(OrderedMembers(json, members)))
    case _ => json
  }

  function OrderedMembers(owner: Json, members: seq<Member>): (r: seq<Member>)
    requires forall i :: 0 <= i < |members| ==> members[i].value < owner
    ensures |r| == |members|
    ensures forall i :: 0 <= i < |r| ==> r[i] == Member(members[i].key, Ordered(members[i].value))
    decreases owner, 0
  {
    seq(|members|, i requires 0 <= i < |members| => Member(members[i].key, Ordered(members[i].value)))
  }

  function Canonical(json: Json): string {
    Text(Ordered(json))
  }

  /** The canonical texts of two values agree exactly when the values do, up to the order of object members. */
  lemma CanonicalIdentifies(one: Json, other: Json)
    requires Keyed(one) && Keyed(other)
    ensures Canonical(one) == Canonical(other) <==> Equivalent(one, other)
  {
    if Canonical(one) == Canonical(other) {
      assert Canonical(one) + [] == Canonical(other) + [];
      TextOnce(Ordered(one), Ordered(other), [], []);
    }
    OrderedIdentifies(one, other);
  }

  lemma {:induction false} OrderedIdentifies(one: Json, other: Json)
    requires Keyed(one) && Keyed(other)
    ensures Ordered(one) == Ordered(other) <==> Equivalent(one, other)
    decreases one
  {
    match one
    case Arr(items) =>
      if other.Arr? {
        ItemsIdentify(one, other);
      }
    case Obj(members) =>
      if other.Obj? {
        MembersIdentify(one, other);
      }
    case _ =>
  }

  lemma {:induction false} ItemsIdentify(one: Json, other: Json)
    requires Keyed(one) && Keyed(other) && one.Arr? && other.Arr?
    ensures Ordered(one) == Ordered(other) <==> Equivalent(one, other)
    decreases one, 0
  {
    var left, right := Ordered(one).items, Ordered(other).items;
    assert |left| == |one.items| && |right| == |other.items|;
    if |left| == |right| {
      forall i | 0 <= i < |left|
        ensures left[i] == right[i] <==> Equivalent(one.items[i], other.items[i])
      {
        OrderedIdentifies(one.items[i], other.items[i]);
      }
      assert (forall i :: 0 <= i < |left| ==> left[i] == right[i]) ==> left == right;
    }
  }

  lemma {:induction false} MembersIdentify(one: Json, other: Json)
    requires Keyed(one) && Keyed(other) && one.Obj? && other.Obj?
    ensures Ordered(one) == Ordered(other) <==> Equivalent(one, other)
    decreases one, 0
  {
    hide SortByKey, Ascending;
    var left, right := OrderedMembers(one, one.members), OrderedMembers(other, other.members);
    forall i, j | 0 <= i < |left| && 0 <= j < |right|
      ensures left[i] == right[j]
              <==> one.members[i].key == other.members[j].key
                   && Equivalent(one.members[i].value, other.members[j].value)
    {
      OrderedIdentifies(one.members[i].value, other.members[j].value);
    }
    SameMembers(left, right);
    hide Ordered, Keyed;
    WithinMeans(one, other, left, right);
  }

  lemma WithinMeans(one: Json, other: Json, left: seq<Member>, right: seq<Member>)
    requires one.Obj? && other.Obj? && |left| == |one.members| && |right| == |other.members|
    requires forall i, j :: 0 <= i < |left| && 0 <= j < |right| ==>
               (left[i] == right[j] <==> one.members[i].key == other.members[j].key
                                         && Equivalent(one.members[i].value, other.members[j].value))
    ensures |left| == |right| && Within(left, right) <==> Equivalent(one, other)
  {
    forall i | 0 <= i < |left|
      ensures left[i] in right <==> Matched(one, other.members, i)
    {
      InIsMatched(one, other, left, right, i);
    }
    hide Matched;
  }

  lemma InIsMatched(one: Json, other: Json, left: seq<Member>, right: seq<Member>, i: nat)
    requires one.Obj? && other.Obj? && |left| == |one.members| && |right| == |other.members| && i < |left|
    requires forall j :: 0 <= j < |right| ==>
               (left[i] == right[j] <==> one.members[i].key == other.members[j].key
                                         && Equivalent(one.members[i].value, other.members[j].value))
    ensures left[i] in right <==> Matched(one, other.members, i)
  {
    hide Equivalent;
    var member := one.members[i];
    if left[i] in right {
      var j :| 0 <= j < |right| && right[j] == left[i];
      assert member.key == other.members[j].key;
    }
    if Matched(one, other.members, i) {
      var j :| 0 <= j < |other.members| && member.key == other.members[j].key
               && Equivalent(member.value, other.members[j].value);
      assert left[i] == right[j];
    }
  }

  predicate Within(left: seq<Member>, right: seq<Member>) {
    forall i :: 0 <= i < |left| ==> left[i] in right
  }

  lemma SortWithin(left: seq<Member>, right: seq<Member>)
    ensures Within(SortByKey(left), SortByKey(right)) <==> Within(left, right)
    ensures |SortByKey(left)| == |left|
  {
    var one, other := SortByKey(left), SortByKey(right);
    hide SortByKey;
    assert |one| == |multiset(one)| == |multiset(left)| == |left|;
    forall member: Member
      ensures member in one <==> member in left
      ensures member in other <==> member in right
    {
      InSorted(left, one, member);
      InSorted(right, other, member);
    }
    assert Within(one, other) <==> forall member :: member in one ==> member in other;
    assert Within(left, right) <==> forall member :: member in left ==> member in right;
  }

  /** Sorting forgets the order of the members and nothing else. */
  lemma SameMembers(left: seq<Member>, right: seq<Member>)
    requires DistinctKeys(left) && DistinctKeys(right)
    ensures SortByKey(left) == SortByKey(right) <==> |left| == |right| && Within(left, right)
  {
    hide SortByKey, Ascending, DistinctKeys;
    SortAscends(left);
    SortAscends(right);
    SortWithin(left, right);
    SortWithin(right, right);
    if |left| == |right| && Within(left, right) {
      AscendingOnce(SortByKey(left), SortByKey(right));
    }
  }

  // ---------------------------------------------------------------- the writer

  function WithOrdered(member: Member): Member {
    Member(member.key, Ordered(member.value))
  }

  lemma KeyKept(member: Member)
    ensures WithOrdered(member).key == member.key
  {
  }

  function AllOrdered(members: seq<Member>): (r: seq<Member>)
    ensures |r| == |members|
  {
    if members == [] then [] else [WithOrdered(members[0])] + AllOrdered(members[1..])
  }

  lemma {:induction false} AllOrderedAt(owner: Json, members: seq<Member>)
    requires forall i :: 0 <= i < |members| ==> members[i].value < owner
    ensures OrderedMembers(owner, members) == AllOrdered(members)
  {
    hide Ordered;
    if members != [] {
      AllOrderedAt(owner, members[1..]);
      assert OrderedMembers(owner, members) == [WithOrdered(members[0])] + OrderedMembers(owner, members[1..]);
    }
  }

  /** Inserting commutes with ordering the values: the writer sorts the keys and looks each value up. */
  lemma {:induction false} InsertOrdered(member: Member, sorted: seq<Member>)
    ensures AllOrdered(Insert(member, sorted)) == Insert(WithOrdered(member), AllOrdered(sorted))
  {
    hide Ordered, Less;
    hide WithOrdered;
    assert WithOrdered(member).key == member.key && (sorted != [] ==> WithOrdered(sorted[0]).key == sorted[0].key) by {
      KeyKept(member);
      if sorted != [] {
        KeyKept(sorted[0]);
      }
    }
    if sorted == [] || Less(member.key, sorted[0].key) {
      assert ([member] + sorted)[1..] == sorted;
    } else {
      InsertOrdered(member, sorted[1..]);
      assert Insert(member, sorted)[1..] == Insert(member, sorted[1..]);
      assert AllOrdered(sorted)[1..] == AllOrdered(sorted[1..]);
    }
  }

  lemma {:induction false} SortOrdered(members: seq<Member>)
    ensures AllOrdered(SortByKey(members)) == SortByKey(AllOrdered(members))
  {
    hide Ordered, Insert;
    if members != [] {
      SortOrdered(members[1..]);
      InsertOrdered(members[0], SortByKey(members[1..]));
      assert AllOrdered(members)[1..] == AllOrdered(members[1..]);
    }
  }

  lemma SortedInside(owner: Json, members: seq<Member>)
    requires forall i :: 0 <= i < |members| ==> members[i].value < owner
    ensures |SortByKey(members)| == |members|
    ensures forall i :: 0 <= i < |members| ==> SortByKey(members)[i].value < owner
  {
    var sorted := SortByKey(members);
    hide SortByKey;
    assert |sorted| == |multiset(sorted)| == |multiset(members)| == |members|;
    forall i | 0 <= i < |members|
      ensures sorted[i].value < owner
    {
      InSorted(members, sorted, sorted[i]);
    }
  }

  /** Appends the canonical text of a value to the buffer. */
  method WriteCanonical(json: Json, out: string) returns (written: string)
    ensures written == out + Canonical(json)
    decreases json, 1, 0
  {
    hide SortByKey, Quoted, Decimal;
    match json
    case Null => written := out + ['n', 'u', 'l', 'l'];
    case Bool(truth) => written := out + (if truth then ['t', 'r', 'u', 'e'] else ['f', 'a', 'l', 's', 'e']);
    case Number(number) => written := out + Decimal(number);
    case Str(text) => written := out + Quoted(text);
    case Arr(items) => written := WriteItems(json, out);
    case Obj(members) => written := WriteMembers(json, out);
  }

  /** What is still to be written of an array's items. */
  function LaterItems(owner: Json, items: seq<Json>, i: nat): string
    requires i <= |items| && forall k :: 0 <= k < |items| ==> items[k] < owner
  {
    (if 0 < i < |items| then [','] else []) + ItemsText(owner, items[i..])
  }

  function Comma(i: nat): string { if i > 0 then [','] else [] }

  lemma ItemWritten(owner: Json, items: seq<Json>, i: nat)
    requires i < |items| && forall k :: 0 <= k < |items| ==> items[k] < owner
    ensures LaterItems(owner, items, i) == Comma(i) + Text(items[i]) + LaterItems(owner, items, i + 1)
  {
    hide Text;
    assert items[i..][1..] == items[i + 1..];
  }

  lemma ItemStep(whole: string, before: string, written: string, owner: Json, items: seq<Json>, i: nat)
    requires i < |items| && forall k :: 0 <= k < |items| ==> items[k] < owner
    requires whole == before + LaterItems(owner, items, i) && written == before + Comma(i) + Text(items[i])
    ensures whole == written + LaterItems(owner, items, i + 1)
  {
    hide Text, LaterItems, Comma;
    ItemWritten(owner, items, i);
  }

  lemma NoItemLeft(owner: Json, items: seq<Json>)
    requires forall k :: 0 <= k < |items| ==> items[k] < owner
    ensures LaterItems(owner, items, |items|) == []
    ensures LaterItems(owner, items, 0) == ItemsText(owner, items)
  {
    hide Text;
    assert items[0..] == items;
  }

  method WriteItems(json: Json, out: string) returns (written: string)
    requires json.Arr?
    ensures written == out + Canonical(json)
    decreases json, 0, 1
  {
    hide ItemsText;
    written := WriteEach(json, Ordered(json), out + ['[']);
    written := written + [']'];
  }

  method WriteEach(json: Json, ghost ordered: Json, out: string) returns (written: string)
    requires json.Arr? && ordered.Arr? && |ordered.items| == |json.items|
    requires forall i :: 0 <= i < |json.items| ==> ordered.items[i] == Ordered(json.items[i])
    ensures written == out + ItemsText(ordered, ordered.items)
    decreases json, 0, 0
  {
    hide LaterItems, ItemsText, Text, Ordered;
    ghost var whole := out + ItemsText(ordered, ordered.items);
    written := out;
    NoItemLeft(ordered, ordered.items);
    for i := 0 to |json.items|
      invariant whole == written + LaterItems(ordered, ordered.items, i)
    {
      ghost var before := written;
      if i > 0 {
        written := written + [','];
      }
      assert written == before + Comma(i);
      written := WriteCanonical(json.items[i], written);
      ItemStep(whole, before, written, ordered, ordered.items, i);
    }
  }

  /** What is still to be written of an object's members. */
  function LaterMembers(owner: Json, members: seq<Member>, i: nat): string
    requires i <= |members| && forall k :: 0 <= k < |members| ==> members[k].value < owner
  {
    (if 0 < i < |members| then [','] else []) + MembersText(owner, members[i..])
  }

  lemma MemberWritten(owner: Json, members: seq<Member>, i: nat)
    requires i < |members| && forall k :: 0 <= k < |members| ==> members[k].value < owner
    ensures LaterMembers(owner, members, i) == Comma(i) + MemberText(members[i]) + LaterMembers(owner, members, i + 1)
  {
    hide MemberText;
    assert members[i..][1..] == members[i + 1..];
  }

  lemma MemberStep(whole: string, before: string, written: string, owner: Json, members: seq<Member>, i: nat)
    requires i < |members| && forall k :: 0 <= k < |members| ==> members[k].value < owner
    requires whole == before + LaterMembers(owner, members, i)
    requires written == before + Comma(i) + MemberText(members[i])
    ensures whole == written + LaterMembers(owner, members, i + 1)
  {
    hide MemberText, LaterMembers, Comma;
    MemberWritten(owner, members, i);
  }

  lemma NoMemberLeft(owner: Json, members: seq<Member>)
    requires forall k :: 0 <= k < |members| ==> members[k].value < owner
    ensures LaterMembers(owner, members, |members|) == []
    ensures LaterMembers(owner, members, 0) == MembersText(owner, members)
  {
    hide MemberText;
    assert members[0..] == members;
  }

  /** The members in key order, and what they are in the ordered value. */
  lemma MembersOrdered(json: Json)
    requires json.Obj?
    ensures var sorted := SortByKey(json.members);
            |sorted| == |json.members| == |Ordered(json).members|
            && forall i :: 0 <= i < |sorted| ==>
                 sorted[i].value < json && Ordered(json).members[i] == WithOrdered(sorted[i])
  {
    var sorted := SortByKey(json.members);
    SortedInside(json, json.members);
    AllOrderedAt(json, json.members);
    AllOrderedAt(json, sorted);
    SortOrdered(json.members);
  }

  method WriteMember(member: Member, out: string) returns (written: string)
    ensures written == out + MemberText(WithOrdered(member))
    decreases member.value, 2, 0
  {
    hide Text, Ordered, Quoted;
    written := out + Quoted(member.key) + [':'];
    written := WriteCanonical(member.value, written);
    assert written == out + (Quoted(member.key) + [':'] + Text(Ordered(member.value)));
  }

  method WriteMembers(json: Json, out: string) returns (written: string)
    requires json.Obj?
    ensures written == out + Canonical(json)
    decreases json, 0, 1
  {
    hide SortByKey, WithOrdered, MembersText;
    var sorted := SortByKey(json.members);
    MembersOrdered(json);
    written := WriteSorted(json, sorted, Ordered(json), out + ['{']);
    written := written + ['}'];
  }

  /** Writes the members of an object, already in key order. */
  method WriteSorted(ghost json: Json, sorted: seq<Member>, ghost ordered: Json, out: string) returns (written: string)
    requires forall i :: 0 <= i < |sorted| ==> sorted[i].value < json
    requires ordered.Obj? && |ordered.members| == |sorted|
    requires forall i :: 0 <= i < |sorted| ==> ordered.members[i] == WithOrdered(sorted[i])
    ensures written == out + MembersText(ordered, ordered.members)
    decreases json, 0, 0
  {
    hide LaterMembers, MembersText, MemberText, WithOrdered;
    ghost var whole := out + MembersText(ordered, ordered.members);
    written := out;
    NoMemberLeft(ordered, ordered.members);
    for i := 0 to |sorted|
      invariant whole == written + LaterMembers(ordered, ordered.members, i)
    {
      ghost var before := written;
      if i > 0 {
        written := written + [','];
      }
      assert written == before + Comma(i);
      written := WriteMember(sorted[i], written);
      MemberStep(whole, before, written, ordered, ordered.members, i);
    }
  }
}

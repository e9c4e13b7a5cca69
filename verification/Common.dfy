/** What several parts of the model share: results, and the `u64` arithmetic of the store. */
module Common {

  datatype Option<+T> = None | Some(value: T) {
    predicate IsFailure() { None? }
    function PropagateFailure<U>(): Option<U>
      requires None?
    {
      None
    }
    function Extract(): T
      requires Some?
    {
      value
    }
    function GetOr(default: T): T {
      if Some? then value else default
    }
  }

  datatype Result<+T, +E> = Ok(value: T) | Err(error: E) {
    predicate IsFailure() { Err? }
    function PropagateFailure<U>(): Result<U, E>
      requires Err?
    {
      Err(error)
    }
    function Extract(): T
      requires Ok?
    {
      value
    }
  }

  type Byte = x: nat | x < 256

  type Bytes = seq<Byte>

  const U64_MAX: nat := 0xFFFF_FFFF_FFFF_FFFF

  type U64 = x: nat | x <= U64_MAX

  function SaturatingAdd(a: U64, b: U64): U64 {
    if a + b <= U64_MAX then a + b else U64_MAX
  }

  function SaturatingSub(a: nat, b: nat): nat {
    if a >= b then a - b else 0
  }

  function Min(a: int, b: int): int { if a <= b then a else b }

  function Max(a: int, b: int): int { if a >= b then a else b }

  // ---------------------------------------------------------------- the largest key of a map

  lemma {:induction false} HasMax(ids: set<U64>)
    requires ids != {}
    ensures exists m :: m in ids && forall x :: x in ids ==> x <= m
    decreases |ids|
  {
    var first :| first in ids;
    if ids != {first} {
      var rest := ids - {first};
      HasMax(rest);
      var m :| m in rest && forall x :: x in rest ==> x <= m;
      assert forall x :: x in ids ==> x == first || x in rest;
      assert forall x :: x in ids ==> x <= Max(first, m);
    }
  }

  function MaxOf(ids: set<U64>): (m: U64)
    requires ids != {}
    ensures m in ids && forall x :: x in ids ==> x <= m
  {
    HasMax(ids);
    var m :| m in ids && forall x :: x in ids ==> x <= m;
    m
  }

  // ---------------------------------------------------------------- division by a known quotient

  lemma QuotientIs(value: int, quotient: int, divisor: int)
    requires divisor > 0 && quotient * divisor <= value < quotient * divisor + divisor
    ensures value / divisor == quotient && value % divisor == value - quotient * divisor
  {
    var q := value / divisor;
    if q < quotient {
      MultiplyMonotone(q + 1, quotient, divisor);
      assert false;
    } else if q > quotient {
      MultiplyMonotone(quotient + 1, q, divisor);
      assert false;
    }
  }

  lemma MultiplyMonotone(a: int, b: int, factor: int)
    requires a <= b && factor > 0
    ensures a * factor <= b * factor
  {
  }

  // ---------------------------------------------------------------- text and sequences

  function LowerChar(c: char): char { if 'A' <= c <= 'Z' then (c as int + 32) as char else c }

  function HexDigit(n: nat): char
    requires n < 16
  {
    if n < 10 then (48 + n) as char else (87 + n) as char
  }

  lemma Regroup<T>(a: seq<T>, b: seq<T>, c: seq<T>)
    ensures (a + b) + c == a + (b + c)
  {
  }
}

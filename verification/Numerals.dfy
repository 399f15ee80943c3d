/** Positional numerals in base 10 and 16, and the division-free loops that produce them. */
module Numerals {
  import opened Machine

  predicate Base(base: nat) {
    base == 10 || base == 16
  }

  /** `base * x` for the two bases in use. */
  function Raise(base: nat, x: int): (r: int) {
    if base == 16 then 16 * x else 10 * x
  }

  /** What a reader makes of a numeral. */
  function Value(base: nat, ds: seq<nat>): (v: nat) {
    if ds == [] then 0 else Raise(base, Value(base, ds[..|ds|-1])) + ds[|ds|-1]
  }

  predicate Numeral(base: nat, ds: seq<nat>) {
    forall k :: 0 <= k < |ds| ==> ds[k] < base
  }

  /** No leading zero, except in the numeral of zero itself. */
  predicate Minimal(ds: seq<nat>) {
    ds != [] && (ds[0] == 0 ==> |ds| == 1)
  }

  /** `v` without its last digit. */
  function Front(base: nat, v: nat): (r: nat)
    requires Base(base)
    ensures Raise(base, r) <= v < Raise(base, r) + base
    ensures v >= base ==> 0 < r < v
  {
    if base == 16 then v / 16 else v / 10
  }

  /** The numeral of `v`. */
  function Digits(base: nat, v: nat): (ds: seq<nat>)
    requires Base(base)
  {
    if v < base then [v] else Digits(base, Front(base, v)) + [v - Raise(base, Front(base, v))]
  }

  lemma {:induction false} ValueAppend(base: nat, ds: seq<nat>, d: nat)
    ensures Value(base, ds + [d]) == Raise(base, Value(base, ds)) + d
  {
    assert (ds + [d])[..|ds|] == ds;
  }

  /** `Digits` writes a minimal numeral that reads back as the number. */
  lemma {:induction false} DigitsReadBack(base: nat, v: nat)
    requires Base(base)
    ensures Numeral(base, Digits(base, v)) && Minimal(Digits(base, v))
    ensures Value(base, Digits(base, v)) == v
    ensures v > 0 ==> Digits(base, v)[0] > 0
    decreases v
  {
    if v < base {
      ValueAppend(base, [], v);
      assert [] + [v] == [v];
    } else {
      var q := Front(base, v);
      DigitsReadBack(base, q);
      ValueAppend(base, Digits(base, q), v - Raise(base, q));
    }
  }

  lemma FrontOf(base: nat, v: nat, d: nat)
    requires Base(base) && d < base
    ensures Front(base, Raise(base, v) + d) == v
  {
  }

  lemma DigitsAppend(base: nat, v: nat, d: nat)
    requires Base(base) && d < base && v > 0
    ensures Digits(base, Raise(base, v) + d) == Digits(base, v) + [d]
  {
    FrontOf(base, v, d);
  }

  /** A minimal numeral is the numeral of its value: nothing else reads the same. */
  lemma {:induction false} DigitsUnique(base: nat, ds: seq<nat>)
    requires Base(base) && Numeral(base, ds) && Minimal(ds)
    ensures Digits(base, Value(base, ds)) == ds
    ensures ds[0] > 0 ==> Value(base, ds) > 0
    decreases |ds|
  {
    var n := |ds| - 1;
    var front, d := ds[..n], ds[n];
    assert ds == front + [d];
    if n == 0 {
      assert front == [];
    } else {
      DigitsUnique(base, front);
      DigitsAppend(base, Value(base, front), d);
    }
  }

  /** `x` followed by `n` zeros. */
  function Scale(base: nat, x: nat, n: nat): (r: nat) {
    if n == 0 then x else Raise(base, Scale(base, x, n - 1))
  }

  lemma {:induction false} ScaleSum(base: nat, x: nat, y: nat, n: nat)
    ensures Scale(base, x + y, n) == Scale(base, x, n) + Scale(base, y, n)
  {
    if n > 0 {
      ScaleSum(base, x, y, n - 1);
    }
  }

  lemma {:induction false} ScaleShift(base: nat, x: nat, n: nat)
    requires Base(base)
    ensures Scale(base, Raise(base, x), n) == Scale(base, x, n + 1)
  {
    if n > 0 {
      ScaleShift(base, x, n - 1);
    }
  }

  /** The largest power of ten in the table is enough for 64 bits. */
  lemma PlacesReach()
    ensures Scale(10, 1, 20) > TWO64
  {
    assert Scale(10, 1, 4) == 10000;
    assert Scale(10, 1, 8) == 100000000 by { assert Scale(10, 1, 6) == 1000000; }
    assert Scale(10, 1, 12) == 1000000000000 by { assert Scale(10, 1, 10) == 10000000000; }
    assert Scale(10, 1, 16) == 10000000000000000 by { assert Scale(10, 1, 14) == 100000000000000; }
    assert Scale(10, 1, 18) == 1000000000000000000;
  }

  /** `value >> shift`. */
  function ShiftRight(value: nat, shift: nat): (r: nat) {
    if shift == 0 then value else ShiftRight(value, shift - 1) / 2
  }

  lemma NibbleShift(value: nat, shift: nat)
    ensures ShiftRight(value, shift + 4) == ShiftRight(value, shift) / 16
  {
    var a := ShiftRight(value, shift);
    var b, c := ShiftRight(value, shift + 1), ShiftRight(value, shift + 2);
    var d := ShiftRight(value, shift + 3);
    assert b == a / 2 && c == b / 2 && d == c / 2 && ShiftRight(value, shift + 4) == d / 2;
  }

  /** Shifting out `n` nibbles is dividing by 16 to the power `n`. */
  lemma {:induction false} ShiftBelow(value: nat, n: nat, m: nat)
    ensures ShiftRight(value, 4 * n) < m <==> value < Scale(16, m, n)
  {
    if n > 0 {
      ShiftBelow(value, n - 1, 16 * m);
      NibbleShift(value, 4 * (n - 1));
      ScaleShift(16, m, n - 1);
    }
  }

  lemma NibblesReach()
    ensures Scale(16, 1, 16) == TWO64
  {
    assert Scale(16, 1, 4) == 0x1_0000;
    assert Scale(16, 1, 8) == 0x1_0000_0000 by { assert Scale(16, 1, 6) == 0x100_0000; }
    assert Scale(16, 1, 12) == 0x1_0000_0000_0000 by { assert Scale(16, 1, 10) == 0x100_0000_0000; }
    assert Scale(16, 1, 14) == 0x100_0000_0000_0000;
  }

  /** The character of one digit. */
  function Symbol(d: nat, upper: bool): (c: byte)
    requires d < 16
  {
    if d < 10 then '0' as int + d else if upper then 'A' as int + (d - 10) else 'a' as int + (d - 10)
  }

  function Spell(ds: seq<nat>, upper: bool): (text: seq<byte>)
    requires Numeral(16, ds)
    ensures |text| == |ds| && forall k :: 0 <= k < |ds| ==> text[k] == Symbol(ds[k], upper)
  {
    seq(|ds|, k requires 0 <= k < |ds| => Symbol(ds[k], upper))
  }

  /** The characters of the numeral of `v`. */
  function DigitText(base: nat, v: nat, upper: bool): (text: seq<byte>)
    requires Base(base)
    ensures |text| == |Digits(base, v)|
  {
    DigitsReadBack(base, v);
    Spell(Digits(base, v), upper)
  }

  /** What a reader makes of one character. */
  function Reading(c: byte): (d: nat)
    ensures d < 16
  {
    if '0' as int <= c <= '9' as int then c - '0' as int
    else if 'A' as int <= c <= 'F' as int then c - 'A' as int + 10
    else if 'a' as int <= c <= 'f' as int then c - 'a' as int + 10 else 0
  }

  /** What a reader makes of a text in the given base. */
  function ReadText(base: nat, text: seq<byte>): (v: nat) {
    Value(base, Readings(text))
  }

  function Readings(text: seq<byte>): (ds: seq<nat>)
    ensures |ds| == |text|
  {
    seq(|text|, k requires 0 <= k < |text| => Reading(text[k]))
  }

  /** The text of a number reads back as the number, in either case of letters. */
  lemma TextReadsBack(base: nat, v: nat, upper: bool)
    requires Base(base)
    ensures ReadText(base, DigitText(base, v, upper)) == v
  {
    DigitsReadBack(base, v);
    SpellingReads(Digits(base, v), upper);
  }

  lemma SpellingReads(ds: seq<nat>, upper: bool)
    requires Numeral(16, ds)
    ensures Readings(Spell(ds, upper)) == ds
  {
    var text := Spell(ds, upper);
    forall k | 0 <= k < |ds| ensures Reading(text[k]) == ds[k] {
    }
  }

  /** The table of decimal places. */
  const PLACES: seq<u64> := [
    10000000000000000000, 1000000000000000000, 100000000000000000, 10000000000000000,
    1000000000000000, 100000000000000, 10000000000000, 1000000000000, 100000000000,
    10000000000, 1000000000, 100000000, 10000000, 1000000, 100000, 10000, 1000, 100, 10, 1]

  lemma {:induction false} PlacesArePowers(i: nat)
    requires i < 20
    ensures PLACES[i] == Scale(10, 1, 19 - i)
    decreases 20 - i
  {
    if i < 19 {
      PlacesArePowers(i + 1);
    }
  }

  /** The digits found so far, followed by `n` digits' worth of what is left, make up the number. */
  ghost predicate Emitted(base: nat, ds: seq<nat>, left: nat, n: nat, value: nat) {
    && Numeral(base, ds) && (ds != [] ==> ds[0] > 0)
    && value == Scale(base, Value(base, ds), n) + left
    && left < Scale(base, 1, n)
  }

  /** `Emitted` until the last digit, which is kept even when it is a leading zero. */
  ghost predicate Progress(base: nat, ds: seq<nat>, left: nat, n: nat, value: nat) {
    if n == 0 then Base(base) && ds == Digits(base, value) && Numeral(base, ds) else Emitted(base, ds, left, n, value)
  }

  /** The digits after looking at one more: leading zeros are dropped. */
  function Push(ds: seq<nat>, d: nat, last: bool): (r: seq<nat>) {
    if d != 0 || ds != [] || last then ds + [d] else ds
  }

  lemma {:induction false} ZeroScale(base: nat, n: nat)
    ensures Scale(base, 0, n) == 0
  {
    if n > 0 {
      ZeroScale(base, n - 1);
    }
  }

  lemma DigitBelowBase(base: nat, d: nat, rest: nat, n: nat)
    requires Base(base) && Scale(base, d, n) + rest < Scale(base, 1, n + 1)
    ensures d < base
  {
    assert Raise(base, 1) == base;
    if d >= base {
      ScaleSum(base, base, d - base, n);
      ScaleShift(base, 1, n);
    }
  }

  lemma MoveDigit(base: nat, v: nat, left: nat, n: nat, d: nat, rest: nat)
    requires Base(base) && left == Scale(base, d, n) + rest
    ensures Scale(base, v, n + 1) + left == Scale(base, Raise(base, v) + d, n) + rest
  {
    ScaleSum(base, Raise(base, v), d, n);
    ScaleShift(base, v, n);
  }

  /** Moving one more digit from what is left to what was found. */
  lemma EmitDigit(base: nat, ds: seq<nat>, left: nat, n: nat, value: nat, d: nat, rest: nat)
    requires Base(base) && Emitted(base, ds, left, n + 1, value)
    requires left == Scale(base, d, n) + rest && rest < Scale(base, 1, n)
    ensures d < base && Progress(base, Push(ds, d, n == 0), rest, n, value)
    ensures Value(base, Push(ds, d, n == 0)) == Raise(base, Value(base, ds)) + d
  {
    DigitBelowBase(base, d, rest, n);
    MoveDigit(base, Value(base, ds), left, n, d, rest);
    PushValue(base, ds, d, n == 0);
    if n == 0 {
      LastDigit(base, Push(ds, d, true), rest, value);
    }
  }

  lemma PushValue(base: nat, ds: seq<nat>, d: nat, last: bool)
    requires Numeral(base, ds) && d < base && (ds != [] ==> ds[0] > 0)
    ensures Value(base, Push(ds, d, last)) == Raise(base, Value(base, ds)) + d
    ensures Numeral(base, Push(ds, d, last)) && (last ==> Minimal(Push(ds, d, last)))
    ensures !last && Push(ds, d, last) != [] ==> Push(ds, d, last)[0] > 0
  {
    ValueAppend(base, ds, d);
  }

  /** After the last place nothing is left, and the digits are the numeral. */
  lemma LastDigit(base: nat, ds: seq<nat>, rest: nat, value: nat)
    requires Base(base) && Numeral(base, ds) && Minimal(ds)
    requires value == Scale(base, Value(base, ds), 0) + rest && rest < Scale(base, 1, 0)
    ensures ds == Digits(base, value)
  {
    DigitsUnique(base, ds);
  }

  /** One step of either digit loop: the digit is stored unless it is a leading zero. */
  method StoreDigit(digits: array<byte>, index: nat, digit: nat, upper: bool, last: bool, ghost ds: seq<nat>)
    returns (count: nat)
    requires index < digits.Length && digit < 16 && Numeral(16, ds) && digits[..index] == Spell(ds, upper)
    modifies digits
    ensures Numeral(16, Push(ds, digit, last)) && |Push(ds, digit, last)| == count <= index + 1 <= digits.Length
    ensures digits[..count] == Spell(Push(ds, digit, last), upper)
  {
    count := index;
    if digit != 0 || index != 0 || last {
      digits[count] := Symbol(digit, upper);
      count := count + 1;
    }
  }

  /** One decimal digit by repeated subtraction of its place. */
  method CountPlace(value: u64, place: u64, ghost n: nat) returns (digit: nat, left: u64)
    requires place == Scale(10, 1, n) && place > 0
    ensures value == Scale(10, digit, n) + left && left < place
  {
    digit, left := 0, value;
    ZeroScale(10, n);
    while left >= place
      invariant value == Scale(10, digit, n) + left
    {
      ScaleSum(10, digit, 1, n);
      left := left - place;
      digit := digit + 1;
    }
  }

  method DecimalDigits(value: u64, upper: bool, digits: array<byte>) returns (count: nat)
    requires digits.Length == 32
    modifies digits
    ensures count <= 20 && digits[..count] == DigitText(10, value, upper)
  {
    ghost var ds: seq<nat> := [];
    var left, i := value, 0;
    count := 0;
    PlacesReach();
    ZeroScale(10, 20);
    while i < 20
      invariant count <= i <= 20 && Progress(10, ds, left, 20 - i, value)
      invariant Numeral(16, ds) && digits[..count] == Spell(ds, upper)
    {
      PlacesArePowers(i);
      var digit, rest := CountPlace(left, PLACES[i], 19 - i);
      EmitDigit(10, ds, left, 19 - i, value, digit, rest);
      count := StoreDigit(digits, count, digit, upper, i + 1 == 20, ds);
      ds := Push(ds, digit, i + 1 == 20);
      left := rest;
      i := i + 1;
    }
  }

  method HexDigits(value: u64, upper: bool, digits: array<byte>) returns (count: nat)
    requires digits.Length == 32
    modifies digits
    ensures count <= 16 && digits[..count] == DigitText(16, value, upper)
  {
    ghost var ds: seq<nat>, left: nat, n: nat := [], value, 16;
    var shift := 60;
    count := 0;
    NibblesReach();
    ZeroScale(16, 16);
    ShiftBelow(value, 16, 1);
    while shift >= 0
      invariant shift == 4 * n - 4 && count + n <= 16 && Progress(16, ds, left, n, value)
      invariant ShiftRight(value, 4 * n) == Value(16, ds)
      invariant Numeral(16, ds) && digits[..count] == Spell(ds, upper)
    {
      n := n - 1;
      var digit := ShiftRight(value, shift) % 16;
      NibbleShift(value, shift);
      ghost var rest := ShiftedRest(value, ds, left, n, digit);
      EmitDigit(16, ds, left, n, value, digit, rest);
      count := StoreDigit(digits, count, digit, upper, shift == 0, ds);
      ds := Push(ds, digit, n == 0);
      left := rest;
      shift := shift - 4;
    }
  }

  /** The nibble at a shift is the next digit of what is left. */
  lemma ShiftedRest(value: nat, ds: seq<nat>, left: nat, n: nat, digit: nat) returns (rest: nat)
    requires Emitted(16, ds, left, n + 1, value)
    requires ShiftRight(value, 4 * n) == Raise(16, Value(16, ds)) + digit
    ensures left == Scale(16, digit, n) + rest && rest < Scale(16, 1, n)
  {
    var v := Value(16, ds);
    ShiftBelow(value, n, 16 * v + digit);
    ShiftBelow(value, n, 16 * v + digit + 1);
    ScaleShift(16, v, n);
    ScaleSum(16, 16 * v, digit, n);
    ScaleSum(16, 16 * v + digit, 1, n);
    rest := left - Scale(16, digit, n);
  }
}

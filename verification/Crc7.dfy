/** The CRC of memory-card commands, and what it means as division of polynomials over GF(2). */
module Crc7 {
  import opened Machine

  // ---------------------------------------------------------------- the register

  /** The seven bits of the CRC register, highest first. */
  datatype Register = Register(b6: bool, b5: bool, b4: bool, b3: bool, b2: bool, b1: bool, b0: bool)

  const EMPTY: Register := Register(false, false, false, false, false, false, false)

  /** The register that a byte holds in its low seven bits. */
  function Held(crc: bv8): (r: Register) {
    Register(crc & 0x40 != 0, crc & 0x20 != 0, crc & 0x10 != 0, crc & 0x08 != 0,
             crc & 0x04 != 0, crc & 0x02 != 0, crc & 0x01 != 0)
  }

  /** One bit fed in: multiply by x, and take x^7 as x^3 + 1. */
  function Feed(r: Register, bit: bool): (r': Register) {
    var d := r.b6 != bit;
    Register(r.b5, r.b4, r.b3, r.b2 != d, r.b1, r.b0, d)
  }

  /** The register after a string of bits, first bit first. */
  function FeedAll(r: Register, bits: seq<bool>): (r': Register)
    decreases bits
  {
    if bits == [] then r else FeedAll(Feed(r, bits[0]), bits[1..])
  }

  /** The `n` high bits of a byte, highest first. */
  function TopBits(v: bv8, n: nat): (bits: seq<bool>)
    ensures |bits| == n
    decreases n
  {
    if n == 0 then [] else [v & 0x80 != 0] + TopBits(v << 1, n - 1)
  }

  function Bits(data: seq<bv8>): (bits: seq<bool>)
    ensures |bits| == 8 * |data|
  {
    if data == [] then [] else TopBits(data[0], 8) + Bits(data[1..])
  }

  function Crc(bits: seq<bool>): (r: Register) {
    FeedAll(EMPTY, bits)
  }

  /** The body of the bit loop. */
  method FeedTopBit(crc: bv8, v: bv8) returns (r: bv8)
    ensures Held(r) == Feed(Held(crc), v & 0x80 != 0) && r & 0x80 == 0
  {
    var mix := ((crc & 0x40) != 0) != ((v & 0x80) != 0);
    r := (crc << 1) & 0x7F;
    if mix {
      r := r ^ 0x09;
    }
  }

  lemma NextBit(r: Register, v: bv8, n: nat)
    ensures FeedAll(r, TopBits(v, n + 1)) == FeedAll(Feed(r, v & 0x80 != 0), TopBits(v << 1, n))
  {
    assert TopBits(v, n + 1)[1..] == TopBits(v << 1, n);
  }

  method FeedByte(crc: bv8, byte: bv8) returns (r: bv8)
    requires crc & 0x80 == 0
    ensures Held(r) == FeedAll(Held(crc), TopBits(byte, 8)) && r & 0x80 == 0
  {
    r := crc;
    var v, bit := byte, 0;
    while bit < 8
      invariant bit <= 8 && r & 0x80 == 0
      invariant FeedAll(Held(r), TopBits(v, 8 - bit)) == FeedAll(Held(crc), TopBits(byte, 8))
    {
      NextBit(Held(r), v, 7 - bit);
      r := FeedTopBit(r, v);
      v := v << 1;
      bit := bit + 1;
    }
  }

  lemma NextByte(data: seq<bv8>, i: nat)
    requires i < |data|
    ensures Bits(data[i..]) == TopBits(data[i], 8) + Bits(data[i + 1..])
  {
    assert data[i..][1..] == data[i + 1..];
  }

  method Compute(data: array<bv8>, size: nat) returns (crc: bv8)
    requires size <= data.Length
    ensures Held(crc) == Crc(Bits(data[..size])) && crc & 0x80 == 0
  {
    crc := 0;
    ghost var all := data[..size];
    assert all[0..] == all;
    var i := 0;
    while i < size
      invariant i <= size && FeedAll(Held(crc), Bits(all[i..])) == Crc(Bits(all)) && crc & 0x80 == 0
    {
      NextByte(all, i);
      FeedAllAppend(Held(crc), TopBits(data[i], 8), Bits(all[i + 1..]));
      crc := FeedByte(crc, data[i]);
      i := i + 1;
    }
  }

  lemma {:induction false} FeedAllAppend(r: Register, a: seq<bool>, b: seq<bool>)
    ensures FeedAll(r, a + b) == FeedAll(FeedAll(r, a), b)
    decreases a
  {
    if a == [] {
      assert a + b == b;
    } else {
      assert (a + b)[1..] == a[1..] + b;
      FeedAllAppend(Feed(r, a[0]), a[1..], b);
    }
  }

  // ---------------------------------------------------------------- polynomials, highest coefficient first

  function Zeros(n: nat): (p: seq<bool>)
    ensures |p| == n
  {
    seq(n, _ => false)
  }

  function Xor(a: seq<bool>, b: seq<bool>): (p: seq<bool>)
    requires |a| == |b|
    ensures |p| == |a|
  {
    seq(|a|, k requires 0 <= k < |a| => a[k] != b[k])
  }

  /** x^7 + x^3 + 1. */
  const GENERATOR: seq<bool> := [true, false, false, false, true, false, false, true]

  function Term(d: bool): (p: seq<bool>)
    ensures |p| == 8
  {
    if d then GENERATOR else Zeros(8)
  }

  /** The product with the generator: shift, and add the generator for each coefficient that is set. */
  function TimesGenerator(q: seq<bool>): (p: seq<bool>)
    ensures |p| == |q| + 7
  {
    if q == [] then Zeros(7) else
    var n := |q| - 1;
    Xor(TimesGenerator(q[..n]) + [false], Zeros(n) + Term(q[n]))
  }

  lemma ProductStep(q: seq<bool>, d: bool)
    ensures TimesGenerator(q + [d]) == Xor(TimesGenerator(q) + [false], Zeros(|q|) + Term(d))
  {
    assert (q + [d])[..|q|] == q;
  }

  /** The register as a polynomial. */
  function Remainder(r: Register): (p: seq<bool>)
    ensures |p| == 7
  {
    [r.b6, r.b5, r.b4, r.b3, r.b2, r.b1, r.b0]
  }

  function Quotient(bits: seq<bool>): (q: seq<bool>)
    ensures |q| == |bits|
  {
    if bits == [] then [] else
    var n := |bits| - 1;
    Quotient(bits[..n]) + [Crc(bits[..n]).b6 != bits[n]]
  }

  lemma ShiftIn(a: seq<bool>, r: seq<bool>, last: bool)
    requires |a| == 7 && r == a + [last]
    ensures r == [a[0], a[1], a[2], a[3], a[4], a[5], a[6], last]
  {
  }

  lemma ShiftOut(a: seq<bool>, r: seq<bool>, first: bool)
    requires |a| == 7 && r == [first] + a
    ensures r == [first, a[0], a[1], a[2], a[3], a[4], a[5], a[6]]
  {
  }

  lemma XorStep(a0: bool, a1: bool, a2: bool, a3: bool, a4: bool, a5: bool, a6: bool, d: bool)
    ensures [a0 != d, a1, a2, a3, a4 != d, a5, a6, d]
         == Xor([a0, a1, a2, a3, a4, a5, a6, false], Term(d))
  {
    TermBits(d);
    XorEight([a0, a1, a2, a3, a4, a5, a6, false], [d, false, false, false, d, false, false, d]);
  }

  lemma TermBits(d: bool)
    ensures Term(d) == [d, false, false, false, d, false, false, d]
  {
  }

  lemma XorEight(a: seq<bool>, b: seq<bool>)
    requires |a| == |b| == 8
    ensures Xor(a, b) == [a[0] != b[0], a[1] != b[1], a[2] != b[2], a[3] != b[3],
                          a[4] != b[4], a[5] != b[5], a[6] != b[6], a[7] != b[7]]
  {
    EightBits(Xor(a, b), a[0] != b[0], a[1] != b[1], a[2] != b[2], a[3] != b[3],
              a[4] != b[4], a[5] != b[5], a[6] != b[6], a[7] != b[7]);
  }

  /** One step of the division, seen in the eight coefficients it touches. */
  lemma FeedDivides(r: Register, bit: bool)
    ensures [bit] + Remainder(Feed(r, bit)) == Xor(Remainder(r) + [false], Term(r.b6 != bit))
  {
    var d := r.b6 != bit;
    XorStep(r.b6, r.b5, r.b4, r.b3, r.b2, r.b1, r.b0, d);
    ShiftIn([r.b6, r.b5, r.b4, r.b3, r.b2, r.b1, r.b0], Remainder(r) + [false], false);
    ShiftOut([r.b5, r.b4, r.b3, r.b2 != d, r.b1, r.b0, d], [bit] + Remainder(Feed(r, bit)), bit);
  }

  lemma XorTail(front: seq<bool>, a: seq<bool>, b: seq<bool>)
    requires |a| == |b|
    ensures Xor(front + a, Zeros(|front|) + b) == front + Xor(a, b)
  {
  }

  /** The division algorithm: one more coefficient of the dividend gives one of the quotient. */
  lemma DivideStep(front: seq<bool>, last: bool, q: seq<bool>, d: bool, r: seq<bool>, r': seq<bool>)
    requires |q| == |front| && |r| == |r'| == 7 && front + r == TimesGenerator(q)
    requires [last] + r' == Xor(r + [false], Term(d))
    ensures front + [last] + r' == TimesGenerator(q + [d])
  {
    ProductStep(q, d);
    Associate(front, r, [false]);
    XorTail(front, r + [false], Term(d));
    Associate(front, [last], r');
  }

  lemma EmptyRemainder()
    ensures [] + Remainder(Crc([])) == TimesGenerator([]) && Quotient([]) == []
  {
    var r := Remainder(EMPTY);
    assert forall k :: 0 <= k < 7 ==> r[k] == Zeros(7)[k];
  }

  lemma CrcAppend(front: seq<bool>, last: bool)
    ensures Crc(front + [last]) == Feed(Crc(front), last)
  {
    FeedAllAppend(EMPTY, front, [last]);
  }

  lemma QuotientAppend(front: seq<bool>, last: bool)
    ensures Quotient(front + [last]) == Quotient(front) + [Crc(front).b6 != last]
  {
    assert (front + [last])[..|front|] == front;
  }

  /** Induction over a string of bits from its end. */
  lemma {:induction false} Appending(P: seq<bool> -> bool, bits: seq<bool>)
    requires P([]) && forall front, last :: P(front) ==> P(front + [last])
    ensures P(bits)
    decreases |bits|
  {
    if bits != [] {
      var n := |bits| - 1;
      Appending(P, bits[..n]);
      assert bits == bits[..n] + [bits[n]];
    }
  }

  predicate Divides(bits: seq<bool>) {
    bits + Remainder(Crc(bits)) == TimesGenerator(Quotient(bits))
  }

  lemma DividesNext(front: seq<bool>, last: bool)
    requires Divides(front)
    ensures Divides(front + [last])
  {
    var r := Crc(front);
    CrcAppend(front, last);
    QuotientAppend(front, last);
    FeedDivides(r, last);
    DivideStep(front, last, Quotient(front), r.b6 != last, Remainder(r), Remainder(Feed(r, last)));
  }

  /** The message followed by its CRC is a multiple of the generator. */
  lemma CrcDivides(bits: seq<bool>)
    ensures bits + Remainder(Crc(bits)) == TimesGenerator(Quotient(bits))
  {
    EmptyRemainder();
    forall front, last | Divides(front) ensures Divides(front + [last]) {
      DividesNext(front, last);
    }
    Appending(Divides, bits);
    assert Divides(bits);
  }

  lemma TermLinear(a: bool, b: bool)
    ensures Term(a != b) == Xor(Term(a), Term(b))
  {
  }

  lemma XorStepLinear(p: seq<bool>, q: seq<bool>, n: nat, a: seq<bool>, b: seq<bool>)
    requires |p| == |q| == n + 7 && |a| == |b| == 8
    ensures Xor(Xor(p + [false], Zeros(n) + a), Xor(q + [false], Zeros(n) + b))
         == Xor(Xor(p, q) + [false], Zeros(n) + Xor(a, b))
  {
    var l, r := Xor(p + [false], Zeros(n) + a), Xor(q + [false], Zeros(n) + b);
    var sum := Xor(Xor(p, q) + [false], Zeros(n) + Xor(a, b));
    forall k | 0 <= k < n + 8 ensures sum[k] == (l[k] != r[k]) {
    }
  }

  lemma XorAppend(a: seq<bool>, b: seq<bool>, x: bool, y: bool)
    requires |a| == |b|
    ensures Xor(a + [x], b + [y]) == Xor(a, b) + [x != y]
  {
  }

  /** `f` grows by a shift and a term, as the product with the generator does. */
  ghost predicate Grows(f: seq<bool> -> seq<bool>, q: seq<bool>, d: bool) {
    |f(q)| == |q| + 7 && f(q + [d]) == Xor(f(q) + [false], Zeros(|q|) + Term(d))
  }

  ghost predicate IsProduct(f: seq<bool> -> seq<bool>) {
    f([]) == Zeros(7) && forall q, d :: Grows(f, q, d)
  }

  lemma ProductGrows()
    ensures IsProduct(TimesGenerator)
  {
    forall q, d ensures Grows(TimesGenerator, q, d) {
      ProductStep(q, d);
    }
  }

  lemma LinearNext(f: seq<bool> -> seq<bool>, a: seq<bool>, b: seq<bool>, x: bool, y: bool)
    requires |a| == |b| && Grows(f, a, x) && Grows(f, b, y) && Grows(f, Xor(a, b), x != y)
    requires f(Xor(a, b)) == Xor(f(a), f(b))
    ensures |f(a + [x])| == |f(b + [y])| && f(Xor(a + [x], b + [y])) == Xor(f(a + [x]), f(b + [y]))
  {
    XorAppend(a, b, x, y);
    TermLinear(x, y);
    XorStepLinear(f(a), f(b), |a|, Term(x), Term(y));
  }

  lemma {:induction false} LinearFrom(f: seq<bool> -> seq<bool>, a: seq<bool>, b: seq<bool>)
    requires |a| == |b| && IsProduct(f)
    ensures |f(a)| == |f(b)| && f(Xor(a, b)) == Xor(f(a), f(b))
    decreases |a|
  {
    if a == [] {
      assert a == [] && b == [] && Xor(a, b) == [];
      assert Xor(Zeros(7), Zeros(7)) == Zeros(7);
    } else {
      var n := |a| - 1;
      var a', b' := a[..n], b[..n];
      LinearFrom(f, a', b');
      assert Grows(f, a', a[n]) && Grows(f, b', b[n]) && Grows(f, Xor(a', b'), a[n] != b[n]);
      LinearNext(f, a', b', a[n], b[n]);
      assert a == a' + [a[n]] && b == b' + [b[n]];
    }
  }

  lemma XorZeros(n: nat, m: nat)
    ensures Xor(Zeros(n) + [false], Zeros(n + 1)) == Zeros(n + 1)
    ensures Zeros(n) + Zeros(m) == Zeros(n + m)
  {
  }

  lemma {:induction false} ZeroProduct(f: seq<bool> -> seq<bool>, n: nat)
    requires IsProduct(f)
    ensures f(Zeros(n)) == Zeros(n + 7)
  {
    if n == 0 {
      assert Zeros(0) == [];
    } else {
      ZeroProduct(f, n - 1);
      assert Grows(f, Zeros(n - 1), false);
      assert Zeros(n) == Zeros(n - 1) + [false];
      XorZeros(n + 6, 0);
      XorZeros(n - 1, 8);
    }
  }

  /** One more coefficient leaves the earlier ones of the product alone. */
  lemma LeadingCoefficients(f: seq<bool> -> seq<bool>, q: seq<bool>, d: bool, k: nat)
    requires Grows(f, q, d) && k <= |q|
    ensures |f(q + [d])| > k && f(q + [d])[k] == if k < |q| then f(q)[k] else f(q)[k] != d
  {
    assert f(q + [d])[k] == ((f(q) + [false])[k] != (Zeros(|q|) + Term(d))[k]);
  }

  /** A product whose first |q| coefficients vanish is the product with zero. */
  lemma {:induction false} LowProduct(f: seq<bool> -> seq<bool>, q: seq<bool>)
    requires IsProduct(f) && |f(q)| >= |q|
    requires forall k :: 0 <= k < |q| ==> !f(q)[k]
    ensures q == Zeros(|q|)
    decreases |q|
  {
    if q != [] {
      var n := |q| - 1;
      var front, last := q[..n], q[n];
      assert q == front + [last] && Grows(f, front, last);
      forall k | 0 <= k < n ensures !f(front)[k] {
        LeadingCoefficients(f, front, last, k);
      }
      LowProduct(f, front);
      ZeroProduct(f, n);
      LeadingCoefficients(f, front, last, n);
    }
  }

  lemma SameRemainder(f: seq<bool> -> seq<bool>, m: seq<bool>, q: seq<bool>, q': seq<bool>, r: seq<bool>, r': seq<bool>)
    requires IsProduct(f) && |q| == |q'| == |m| && |r| == |r'| == 7
    requires m + r == f(q) && m + r' == f(q')
    ensures r == r'
  {
    LinearFrom(f, q, q');
    XorFront(m, r, r');
    LowProduct(f, Xor(q, q'));
    ZeroProduct(f, |m|);
    XorZero(r, r', |m|);
  }

  /** Division by the generator has one remainder: no other seven bits complete the message to a multiple. */
  lemma CrcUnique(bits: seq<bool>, q: seq<bool>, r: seq<bool>)
    requires |q| == |bits| && |r| == 7 && bits + r == TimesGenerator(q)
    ensures r == Remainder(Crc(bits))
  {
    CrcDivides(bits);
    ProductGrows();
    SameRemainder(TimesGenerator, bits, q, Quotient(bits), r, Remainder(Crc(bits)));
  }

  lemma XorFront(front: seq<bool>, a: seq<bool>, b: seq<bool>)
    requires |a| == |b|
    ensures Xor(front + a, front + b) == Zeros(|front|) + Xor(a, b)
  {
  }

  lemma XorZero(a: seq<bool>, b: seq<bool>, n: nat)
    requires |a| == |b| && Zeros(n) + Xor(a, b) == Zeros(n + |a|)
    ensures a == b
  {
    forall k | 0 <= k < |a| ensures a[k] == b[k] {
      assert (Zeros(n) + Xor(a, b))[n + k] == Xor(a, b)[k];
    }
  }

  // ---------------------------------------------------------------- error detection

  function Sum(a: Register, b: Register): (r: Register) {
    Register(a.b6 != b.b6, a.b5 != b.b5, a.b4 != b.b4, a.b3 != b.b3, a.b2 != b.b2, a.b1 != b.b1, a.b0 != b.b0)
  }

  lemma FeedLinear(c: Register, d: Register, a: bool, b: bool)
    ensures Feed(Sum(c, d), a != b) == Sum(Feed(c, a), Feed(d, b))
  {
  }

  lemma XorRest(a: seq<bool>, b: seq<bool>)
    requires |a| == |b| && a != []
    ensures Xor(a, b)[0] == (a[0] != b[0]) && Xor(a, b)[1..] == Xor(a[1..], b[1..])
  {
  }

  lemma {:induction false} FeedAllLinear(c: Register, d: Register, a: seq<bool>, b: seq<bool>)
    requires |a| == |b|
    ensures FeedAll(Sum(c, d), Xor(a, b)) == Sum(FeedAll(c, a), FeedAll(d, b))
    decreases |a|
  {
    if a != [] {
      FeedLinear(c, d, a[0], b[0]);
      XorRest(a, b);
      FeedAllLinear(Feed(c, a[0]), Feed(d, b[0]), a[1..], b[1..]);
    }
  }

  /** The CRC of a sum is the sum of the CRCs. */
  lemma CrcLinear(a: seq<bool>, b: seq<bool>)
    requires |a| == |b|
    ensures Crc(Xor(a, b)) == Sum(Crc(a), Crc(b))
  {
    assert Sum(EMPTY, EMPTY) == EMPTY;
    FeedAllLinear(EMPTY, EMPTY, a, b);
  }

  /** The register after `n` zero bits. */
  function Walk(r: Register, n: nat): (r': Register)
    decreases n
  {
    if n == 0 then r else Walk(Feed(r, false), n - 1)
  }

  lemma {:induction false} WalkIsFeed(r: Register, n: nat)
    ensures FeedAll(r, Zeros(n)) == Walk(r, n)
    decreases n
  {
    if n > 0 {
      assert Zeros(n)[1..] == Zeros(n - 1);
      WalkIsFeed(Feed(r, false), n - 1);
    }
  }

  /** Zero bits never confuse two registers. */
  lemma {:induction false} WalkInjective(r: Register, s: Register, n: nat)
    ensures Walk(r, n) == Walk(s, n) <==> r == s
    decreases n
  {
    if n > 0 {
      assert Feed(r, false) == Feed(s, false) <==> r == s;
      WalkInjective(Feed(r, false), Feed(s, false), n - 1);
    }
  }

  lemma {:induction false} WalkAppend(r: Register, m: nat, n: nat)
    ensures Walk(r, m + n) == Walk(Walk(r, m), n)
    decreases m
  {
    if m > 0 {
      WalkAppend(Feed(r, false), m - 1, n);
    }
  }

  /** The register after a single set bit. */
  const ONE: Register := Feed(EMPTY, true)

  // The register after 4, 8, 16, 32 and 64 zero bits, bit by bit.

  function Four(r: Register): (r': Register)
  {
    Register(r.b6 != r.b2, r.b5 != r.b1, r.b4 != r.b0, r.b6 != r.b3,
             r.b5, r.b4, r.b3)
  }

  function Eight(r: Register): (r': Register)
  {
    Register((r.b6 != r.b5) != r.b2, (r.b5 != r.b4) != r.b1, (r.b4 != r.b3) != r.b0, r.b3 != r.b2,
             r.b5 != r.b1, r.b4 != r.b0, r.b6 != r.b3)
  }

  function Sixteen(r: Register): (r': Register)
  {
    Register(((r.b6 != r.b5) != r.b4) != r.b2, ((r.b5 != r.b4) != r.b3) != r.b1,
             (((r.b6 != r.b4) != r.b3) != r.b2) != r.b0, ((r.b5 != r.b3) != r.b2) != r.b1,
             (r.b5 != r.b1) != r.b0, (r.b6 != r.b4) != r.b0, (r.b6 != r.b5) != r.b3)
  }

  function ThirtyTwo(r: Register): (r': Register)
  {
    Register(r.b5 != r.b4, r.b4 != r.b3, (r.b6 != r.b3) != r.b2, ((r.b6 != r.b5) != r.b2) != r.b1,
             r.b1 != r.b0, r.b6 != r.b0, r.b6 != r.b5)
  }

  function SixtyFour(r: Register): (r': Register)
  {
    Register((r.b6 != r.b4) != r.b2, (r.b5 != r.b3) != r.b1,
             ((r.b6 != r.b4) != r.b2) != r.b0, ((r.b6 != r.b5) != r.b3) != r.b1,
             r.b5 != r.b0, r.b6 != r.b4, r.b5 != r.b3)
  }

  lemma FourFeeds(r: Register)
    ensures Four(r) == Feed(Feed(Feed(Feed(r, false), false), false), false)
  {
  }

  lemma Doublings(r: Register)
    ensures Eight(r) == Four(Four(r)) && Sixteen(r) == Eight(Eight(r))
    ensures ThirtyTwo(r) == Sixteen(Sixteen(r)) && SixtyFour(r) == ThirtyTwo(ThirtyTwo(r))
  {
  }

  /** x to the power 128 is x. */
  lemma Frobenius(r: Register)
    ensures SixtyFour(SixtyFour(r)) == Feed(r, false)
  {
  }

  lemma FourSteps(r: Register, n: nat)
    ensures Walk(r, n + 4) == Walk(Four(r), n)
  {
    var r1 := Feed(r, false);
    var r2 := Feed(r1, false);
    FourFeeds(r);
    assert Walk(r, n + 4) == Walk(r1, n + 3) && Walk(r1, n + 3) == Walk(r2, n + 2);
  }

  lemma SixteenSteps(r: Register, n: nat)
    ensures Walk(r, n + 16) == Walk(Sixteen(r), n)
  {
    var r4, r8 := Four(r), Eight(r);
    FourSteps(r, n + 12);
    FourSteps(r4, n + 8);
    FourSteps(r8, n + 4);
    FourSteps(Four(r8), n);
    Doublings(r);
    Doublings(r8);
  }

  lemma SixtyFourSteps(r: Register, n: nat)
    ensures Walk(r, n + 64) == Walk(SixtyFour(r), n)
  {
    var r16, r32 := Sixteen(r), ThirtyTwo(r);
    SixteenSteps(r, n + 48);
    SixteenSteps(r16, n + 32);
    SixteenSteps(r32, n + 16);
    SixteenSteps(Sixteen(r32), n);
    Doublings(r);
    Doublings(r32);
  }

  /** 127 zero bits bring any register back. */
  lemma Period(r: Register, n: nat)
    requires n == 127
    ensures Walk(r, n) == r
  {
    var m := n - 63;
    SixtyFourSteps(r, m);
    SixtyFourSteps(SixtyFour(r), m - 64);
    Frobenius(r);
    WalkAppend(r, n, 1);
    assert Walk(Walk(r, n), 1) == Feed(Walk(r, n), false);
    assert Feed(Walk(r, n), false) == Feed(r, false);
  }

  lemma SmallerPeriod(r: Register, d: nat)
    requires 1 < d < 127 && Walk(r, d) == r
    ensures 0 < 127 % d < d && Walk(r, 127 % d) == r
  {
    var k, rest := 127 / d, 127 % d;
    PrimePeriod(d);
    Multiples(r, d, k);
    var m := d * k;
    assert m + rest == 127;
    WalkAppend(r, m, rest);
    Period(r, m + rest);
  }

  /** No shorter walk returns: a shorter period would leave a shorter one still, as 127 is prime. */
  lemma {:induction false} NoShorterPeriod(r: Register, d: nat)
    requires 0 < d < 127 && r != EMPTY
    ensures Walk(r, d) != r
    decreases d
  {
    if d > 1 && Walk(r, d) == r {
      SmallerPeriod(r, d);
      NoShorterPeriod(r, 127 % d);
    }
  }

  lemma NoSmallFactor(d: nat, q: nat)
    requires 2 <= d <= 11
    ensures d * q != 127
  {
    if d == 2 {
      assert 2 * q != 127;
    } else if d == 3 {
      assert 3 * q != 127;
    } else if d == 4 {
      assert 4 * q != 127;
    } else if d == 5 {
      assert 5 * q != 127;
    } else if d == 6 {
      assert 6 * q != 127;
    } else if d == 7 {
      assert 7 * q != 127;
    } else if d == 8 {
      assert 8 * q != 127;
    } else if d == 9 {
      assert 9 * q != 127;
    } else if d == 10 {
      assert 10 * q != 127;
    } else if d == 11 {
      assert 11 * q != 127;
    }
  }

  lemma PrimePeriod(d: nat)
    requires 1 < d < 127
    ensures 127 % d != 0
  {
    if 127 % d == 0 {
      var q := 127 / d;
      FactorOf(127, d, q);
      if d <= 11 { NoSmallFactor(d, q); }
      else if q <= 11 { NoSmallFactor(q, d); }
      else { BigProduct(d, q); }
    }
  }

  lemma FactorOf(n: nat, d: nat, q: nat)
    requires 1 < d < n && n % d == 0 && q == n / d
    ensures d * q == n && q * d == n && q >= 2
  {
    assert n == d * (n / d) + n % d;
    assert d * 0 == 0 && d * 1 == d;
  }

  lemma BigProduct(d: nat, q: nat)
    requires d >= 12 && q >= 12
    ensures d * q >= 144
  {
    assert d * q >= d * 12;
  }

  lemma {:induction false} Multiples(r: Register, d: nat, k: nat)
    requires Walk(r, d) == r
    ensures d * k >= 0 && Walk(r, d * k) == r
    decreases k
  {
    if k > 0 {
      Multiples(r, d, k - 1);
      WalkAppend(r, d, d * (k - 1));
      assert d * k == d + d * (k - 1);
    }
  }

  lemma FullPeriods(r: Register, d: nat)
    requires r != EMPTY
    ensures Walk(r, d) == r <==> d % 127 == 0
  {
    var k, rest := d / 127, d % 127;
    Period(r, 127);
    Multiples(r, 127, k);
    var m := 127 * k;
    WalkAppend(r, m, rest);
    assert m + rest == d;
    if rest > 0 {
      NoShorterPeriod(r, rest);
    }
  }

  /** The message whose set bits are the places where `a` and `b` differ. */
  lemma SameCrc(a: seq<bool>, b: seq<bool>)
    requires |a| == |b|
    ensures Crc(a) == Crc(b) <==> Crc(Xor(a, b)) == EMPTY
  {
    CrcLinear(a, b);
  }

  lemma OneAfterZeros(i: nat, n: nat)
    requires i < n
    ensures Crc(Zeros(i) + [true] + Zeros(n - i - 1)) == Walk(ONE, n - i - 1) != EMPTY
  {
    var k := n - i - 1;
    FeedAllAppend(EMPTY, Zeros(i) + [true], Zeros(k));
    FeedAllAppend(EMPTY, Zeros(i), [true]);
    WalkIsFeed(EMPTY, i);
    WalkEmpty(i);
    WalkIsFeed(ONE, k);
    WalkEmpty(k);
    WalkInjective(ONE, EMPTY, k);
  }

  lemma {:induction false} WalkEmpty(n: nat)
    ensures Walk(EMPTY, n) == EMPTY
    decreases n
  {
    if n > 0 {
      WalkEmpty(n - 1);
    }
  }

  /** Two messages that differ in one bit have different CRCs. */
  lemma SingleError(a: seq<bool>, b: seq<bool>, i: nat)
    requires |a| == |b| && i < |a|
    requires forall k :: 0 <= k < |a| ==> (a[k] != b[k] <==> k == i)
    ensures Crc(a) != Crc(b)
  {
    SameCrc(a, b);
    OneAfterZeros(i, |a|);
    assert Xor(a, b) == Zeros(i) + [true] + Zeros(|a| - i - 1);
  }

  /** Two messages that differ in two bits have the same CRC exactly when the bits are a multiple of 127 apart. */
  lemma DoubleError(a: seq<bool>, b: seq<bool>, i: nat, j: nat)
    requires |a| == |b| && i < j < |a|
    requires forall k :: 0 <= k < |a| ==> (a[k] != b[k] <==> k == i || k == j)
    ensures Crc(a) == Crc(b) <==> (j - i) % 127 == 0
  {
    var k := |a| - j - 1;
    var first := Zeros(i) + [true] + Zeros(j - i - 1);
    OneAfterZeros(i, j);
    FeedAllAppend(EMPTY, first, [true]);
    FeedAllAppend(EMPTY, first + [true], Zeros(k));
    SameCrc(a, b);
    assert Xor(a, b) == (first + [true]) + Zeros(k);
    var r := Walk(ONE, j - i - 1);
    WalkIsFeed(Feed(r, true), k);
    WalkEmpty(k);
    WalkInjective(Feed(r, true), EMPTY, k);
    WalkAppend(ONE, j - i - 1, 1);
    assert Walk(ONE, j - i) == Walk(r, 1) == Feed(r, false);
    assert Feed(r, true) == EMPTY <==> Feed(r, false) == ONE;
    FullPeriods(ONE, j - i);
  }

  // ---------------------------------------------------------------- command frames

  /** The command byte and the four argument bytes, highest first. */
  function Head(command: bv8, argument: bv32): (head: seq<bv8>)
    ensures |head| == 5
  {
    [command, ((argument >> 24) & 0xFF) as bv8, ((argument >> 16) & 0xFF) as bv8,
     ((argument >> 8) & 0xFF) as bv8, (argument & 0xFF) as bv8]
  }

  /** Its first byte is the command, and the others give the argument back. */
  lemma HeadMeans(command: bv8, argument: bv32)
    ensures var h := Head(command, argument);
            && h[0] == command
            && (h[1] as bv32 << 24) | (h[2] as bv32 << 16) | (h[3] as bv32 << 8) | h[4] as bv32 == argument
  {
  }

  /** The six bytes sent for a command. */
  method BuildFrame(command: bv8, argument: bv32) returns (packet: array<bv8>)
    ensures fresh(packet) && packet.Length == 6 && packet[..5] == Head(command, argument)
    ensures IsFrame(packet[..])
  {
    packet := new bv8[6];
    packet[0] := command;
    packet[1] := ((argument >> 24) & 0xFF) as bv8;
    packet[2] := ((argument >> 16) & 0xFF) as bv8;
    packet[3] := ((argument >> 8) & 0xFF) as bv8;
    packet[4] := (argument & 0xFF) as bv8;
    FirstFive(packet[..], Head(command, argument));
    var crc := Compute(packet, 5);
    FrontKept(packet[..], (crc << 1) | 1);
    SealedBy(packet[..5], (crc << 1) | 1, crc);
    packet[5] := (crc << 1) | 1;
  }

  lemma FirstFive(s: seq<bv8>, head: seq<bv8>)
    requires |s| == 6 && |head| == 5
    requires s[0] == head[0] && s[1] == head[1] && s[2] == head[2] && s[3] == head[3] && s[4] == head[4]
    ensures s[..5] == head
  {
  }

  lemma FrontKept(s: seq<bv8>, last: bv8)
    requires |s| == 6
    ensures s[5 := last][..5] == s[..5]
  {
  }

  lemma SealedBy(head: seq<bv8>, last: bv8, crc: bv8)
    requires crc & 0x80 == 0 && Held(crc) == Crc(Bits(head)) && last == (crc << 1) | 1
    ensures Sealed(head, last)
  {
  }

  /** Five bytes, their CRC in the high seven bits of the sixth, and an end bit. */
  ghost predicate IsFrame(packet: seq<bv8>) {
    |packet| == 6 && Sealed(packet[..5], packet[5])
  }

  ghost predicate Sealed(head: seq<bv8>, last: bv8) {
    exists crc: bv8 :: crc & 0x80 == 0 && Held(crc) == Crc(Bits(head)) && last == (crc << 1) | 1
  }

  lemma LastByte(crc: bv8, d: bv8)
    requires crc & 0x80 == 0 && d & 0x80 == 0 && Held(crc) != Held(d)
    ensures (crc << 1) | 1 != (d << 1) | 1
  {
  }

  /** Frames of two commands that differ in one or two of their forty bits also differ in their last byte. */
  lemma FramesDiffer(p: seq<bv8>, p': seq<bv8>, i: nat, j: nat)
    requires IsFrame(p) && IsFrame(p') && i <= j < 40
    requires forall k :: 0 <= k < 40 ==> (Bits(p[..5])[k] != Bits(p'[..5])[k] <==> k == i || k == j)
    ensures p[5] != p'[5]
  {
    var a, b := Bits(p[..5]), Bits(p'[..5]);
    if i == j {
      SingleError(a, b, i);
    } else {
      DoubleError(a, b, i, j);
    }
    var crc: bv8 :| crc & 0x80 == 0 && Held(crc) == Crc(a) && p[5] == (crc << 1) | 1;
    var d: bv8 :| d & 0x80 == 0 && Held(d) == Crc(b) && p'[5] == (d << 1) | 1;
    LastByte(crc, d);
  }

  lemma LastByteBits(crc: bv8, v: bv8)
    requires crc & 0x80 == 0 && v == (crc << 1) | 1
    ensures var r := Held(crc);
            && (v & 0x80 != 0) == r.b6 && (v & 0x40 != 0) == r.b5 && (v & 0x20 != 0) == r.b4 && (v & 0x10 != 0) == r.b3
            && (v & 0x08 != 0) == r.b2 && (v & 0x04 != 0) == r.b1 && (v & 0x02 != 0) == r.b0 && v & 0x01 != 0
  {
  }

  lemma NextTop(v: bv8, w: bv8, n: nat)
    requires w == v << 1
    ensures TopBits(v, n + 1)[0] == (v & 0x80 != 0) && TopBits(v, n + 1)[1..] == TopBits(w, n)
  {
  }

  lemma Tops(v: bv8, v4: bv8)
    requires v4 == (((v << 1) << 1) << 1) << 1
    ensures ((v << 1) & 0x80 != 0) == (v & 0x40 != 0) && (((v << 1) << 1) & 0x80 != 0) == (v & 0x20 != 0)
    ensures ((((v << 1) << 1) << 1) & 0x80 != 0) == (v & 0x10 != 0)
    ensures (v4 & 0x80 != 0) == (v & 0x08 != 0) && (v4 & 0x40 != 0) == (v & 0x04 != 0)
    ensures (v4 & 0x20 != 0) == (v & 0x02 != 0) && (v4 & 0x10 != 0) == (v & 0x01 != 0)
  {
  }

  lemma FourTops(v: bv8, n: nat)
    ensures var bits := TopBits(v, n + 4);
            && bits[0] == (v & 0x80 != 0) && bits[1] == (v & 0x40 != 0)
            && bits[2] == (v & 0x20 != 0) && bits[3] == (v & 0x10 != 0)
            && bits[4..] == TopBits((((v << 1) << 1) << 1) << 1, n)
  {
    var v1 := v << 1;
    var v2 := v1 << 1;
    var v3 := v2 << 1;
    var v4 := v3 << 1;
    NextTop(v, v1, n + 3);
    NextTop(v1, v2, n + 2);
    NextTop(v2, v3, n + 1);
    NextTop(v3, v4, n);
    Tops(v, v4);
    FourDeep(TopBits(v, n + 4), TopBits(v1, n + 3), TopBits(v2, n + 2), TopBits(v3, n + 1));
  }

  lemma FourDeep(s: seq<bool>, s1: seq<bool>, s2: seq<bool>, s3: seq<bool>)
    requires |s| >= 4 && s[1..] == s1 && s1[1..] == s2 && s2[1..] == s3
    ensures s[1] == s1[0] && s[2] == s2[0] && s[3] == s3[0] && s[4..] == s3[1..]
  {
  }

  lemma EightTops(v: bv8, n: nat)
    requires n == 0
    ensures TopBits(v, n + 4 + 4)
         == [v & 0x80 != 0, v & 0x40 != 0, v & 0x20 != 0, v & 0x10 != 0,
             v & 0x08 != 0, v & 0x04 != 0, v & 0x02 != 0, v & 0x01 != 0]
  {
    var bits, v4 := TopBits(v, n + 4 + 4), (((v << 1) << 1) << 1) << 1;
    FourTops(v, n + 4);
    FourTops(v4, n);
    Tops(v, v4);
    var low := TopBits(v4, n + 4);
    assert bits[4] == low[0] && bits[5] == low[1] && bits[6] == low[2] && bits[7] == low[3];
    EightBits(bits, v & 0x80 != 0, v & 0x40 != 0, v & 0x20 != 0, v & 0x10 != 0,
              v & 0x08 != 0, v & 0x04 != 0, v & 0x02 != 0, v & 0x01 != 0);
  }

  lemma LastByteText(crc: bv8, v: bv8, n: nat)
    requires crc & 0x80 == 0 && v == (crc << 1) | 1 && n == 8
    ensures TopBits(v, n) == Remainder(Held(crc)) + [true]
  {
    var r := Held(crc);
    LastByteBits(crc, v);
    EightTops(v, n - 8);
    ShiftIn([r.b6, r.b5, r.b4, r.b3, r.b2, r.b1, r.b0], Remainder(r) + [true], true);
  }

  lemma EightBits(s: seq<bool>, s0: bool, s1: bool, s2: bool, s3: bool, s4: bool, s5: bool, s6: bool, s7: bool)
    requires |s| == 8 && s[0] == s0 && s[1] == s1 && s[2] == s2 && s[3] == s3
    requires s[4] == s4 && s[5] == s5 && s[6] == s6 && s[7] == s7
    ensures s == [s0, s1, s2, s3, s4, s5, s6, s7]
  {
  }

  lemma {:induction false} BitsAppend(a: seq<bv8>, b: seq<bv8>)
    ensures Bits(a + b) == Bits(a) + Bits(b)
  {
    if a == [] {
      assert a + b == b;
    } else {
      assert (a + b)[1..] == a[1..] + b;
      BitsAppend(a[1..], b);
    }
  }

  lemma OneByte(v: bv8)
    ensures Bits([v]) == TopBits(v, 8)
  {
    assert [v][1..] == [];
  }

  /** Any bytes with their CRC and an end bit behind them. */
  lemma SealedDivides(head: seq<bv8>, last: bv8)
    requires Sealed(head, last)
    ensures Bits(head + [last]) == TimesGenerator(Quotient(Bits(head))) + [true]
  {
    var crc: bv8 :| crc & 0x80 == 0 && Held(crc) == Crc(Bits(head)) && last == (crc << 1) | 1;
    CrcDivides(Bits(head));
    LastByteText(crc, last, 8);
    BitsAppend(head, [last]);
    OneByte(last);
    Associate(Bits(head), Remainder(Crc(Bits(head))), [true]);
  }

  /** A frame on the wire: 47 bits that are a multiple of the generator, then the end bit. */
  lemma FrameDivides(p: seq<bv8>)
    requires IsFrame(p)
    ensures Bits(p) == TimesGenerator(Quotient(Bits(p[..5]))) + [true]
  {
    SealedDivides(p[..5], p[5]);
    FrontAndLast(p, 5);
  }

  lemma FrontAndLast<T>(s: seq<T>, n: nat)
    requires |s| == n + 1
    ensures s[..n] + [s[n]] == s
  {
  }
}

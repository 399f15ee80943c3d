/** What each directive prints, told from the text alone: padding, sign or prefix, and a numeral that reads back. */
module FormatDirectives {
  import opened Machine
  import opened Numerals
  import opened FormatText
  import opened FormatLaws

  // ---------------------------------------------------------------- numerals and fields, as a reader sees them

  predicate DigitOf(base: nat, upper: bool, c: byte) {
    || '0' as int <= c <= '9' as int
    || (base == 16 && if upper then 'A' as int <= c <= 'F' as int else 'a' as int <= c <= 'f' as int)
  }

  /** Digits of the base, with letters of one case only, no leading zero, and read as `m`. */
  predicate IsNumeral(base: nat, upper: bool, text: seq<byte>, m: nat) {
    && text != [] && (forall k :: 0 <= k < |text| ==> DigitOf(base, upper, text[k]))
    && (|text| == 1 || text[0] != '0' as int) && ReadText(base, text) == m
  }

  lemma DigitTextIsNumeral(base: nat, m: nat, upper: bool)
    requires Base(base)
    ensures IsNumeral(base, upper, DigitText(base, m, upper), m)
  {
    DigitsReadBack(base, m);
    TextReadsBack(base, m, upper);
    var ds, text := Digits(base, m), DigitText(base, m, upper);
    forall k | 0 <= k < |text| ensures DigitOf(base, upper, text[k]) {
      assert ds[k] < base && text[k] == Symbol(ds[k], upper);
    }
  }

  /** Reading is positional, in the base written out. */
  lemma ReadsPositional(text: seq<byte>, c: byte)
    ensures ReadText(10, text + [c]) == 10 * ReadText(10, text) + Reading(c)
    ensures ReadText(16, text + [c]) == 16 * ReadText(16, text) + Reading(c)
    ensures ReadText(10, []) == ReadText(16, []) == 0
  {
    assert Readings(text + [c]) == Readings(text) + [Reading(c)];
    ValueAppend(10, Readings(text), Reading(c));
    ValueAppend(16, Readings(text), Reading(c));
  }

  /** The characters and what they read as. */
  lemma SymbolTable(d: nat, upper: bool)
    requires d < 16
    ensures Symbol(d, upper) == (if upper then "0123456789ABCDEF"[d] else "0123456789abcdef"[d]) as int
    ensures Reading(Symbol(d, upper)) == d
  {
  }

  /** `text` is as wide as asked or as its contents need; zeros go behind the prefix, spaces before it. */
  predicate InField(text: seq<byte>, zero: bool, width: nat, prefix: seq<byte>, body: seq<byte>) {
    && |text| == Max(width, |prefix| + |body|)
    && var n := |text| - |prefix| - |body|;
       && text[n + |prefix|..] == body
       && (if zero then text[..|prefix|] == prefix && forall k :: |prefix| <= k < |prefix| + n ==> text[k] == '0' as int
           else text[n..n + |prefix|] == prefix && forall k :: 0 <= k < n ==> text[k] == ' ' as int)
  }

  lemma FieldIsField(zero: bool, width: nat, prefix: seq<byte>, body: seq<byte>)
    ensures InField(Field(zero, width, prefix, body), zero, width, prefix, body)
  {
    var text, n := Field(zero, width, prefix, body), Padding(width, |body| + |prefix|);
    assert |Repeat(ZERO, n)| == n == |Repeat(SPACE, n)|;
  }

  // ---------------------------------------------------------------- the width

  /** The number that the digits of a width give, as the scanning loop adds them up. */
  function WidthOf(digits: seq<byte>): (w: nat)
    requires forall c :: c in digits ==> IsDigit(c)
    ensures w < 1000000
  {
    if digits == [] then 0
    else Widen(WidthOf(digits[..|digits| - 1]), digits[|digits| - 1])
  }

  /** It is the number written there exactly when that has at most six digits. */
  lemma {:induction false} WidthExactly(digits: seq<byte>)
    requires forall c :: c in digits ==> IsDigit(c)
    ensures WidthOf(digits) == ReadText(10, digits) <==> ReadText(10, digits) < 1000000
    ensures ReadText(10, digits) >= 1000000 ==> WidthOf(digits) >= 100000
  {
    if digits == [] {
      ReadsPositional([], 0);
    } else {
      var front, c := digits[..|digits| - 1], digits[|digits| - 1];
      assert digits == front + [c];
      assert c in digits && forall d :: d in front ==> d in digits;
      WidthExactly(front);
      ReadsPositional(front, c);
    }
  }

  lemma {:induction false} DigitsParsed(f: seq<byte>, i: nat, n: nat)
    requires i + n <= |f| && !IsDigit(At(f, i + n)) && forall c :: c in f[i..i + n] ==> IsDigit(c)
    ensures DigitsEnd(f, i) == i + n && WidthFrom(f, i, 0) == WidthOf(f[i..i + n])
  {
    assert f[i..i] == [];
    ParsedFrom(f, i, i, n);
  }

  lemma {:induction false} ParsedFrom(f: seq<byte>, start: nat, i: nat, n: nat)
    requires start <= i && i + n <= |f| && !IsDigit(At(f, i + n))
    requires forall c :: c in f[start..i + n] ==> IsDigit(c)
    ensures (forall c :: c in f[start..i] ==> IsDigit(c)) && DigitsEnd(f, i) == i + n
    ensures WidthFrom(f, i, WidthOf(f[start..i])) == WidthOf(f[start..i + n])
    decreases n
  {
    forall c | c in f[start..i] ensures IsDigit(c) {
      assert f[start..i] <= f[start..i + n];
    }
    if n > 0 {
      assert f[i] in f[start..i + n] by { assert f[start..i + n][i - start] == f[i]; }
      ParsedFrom(f, start, i + 1, n - 1);
      assert f[start..i + 1][..i - start] == f[start..i] && f[start..i + 1][i - start] == f[i];
    }
  }

  // ---------------------------------------------------------------- one directive

  function LengthText(length: Length): (text: seq<byte>) {
    match length
    case Default => []
    case Long => ['l' as int]
    case LongLong => ['l' as int, 'l' as int]
    case Size => ['z' as int]
  }

  /** A percent sign, the zero flag, the digits of the width, the length modifier and the specifier. */
  function Directed(zero: bool, digits: seq<byte>, length: Length, c: byte): (f: seq<byte>) {
    ['%' as int] + (if zero then ['0' as int] else []) + digits + LengthText(length) + [c]
  }

  /** Digits that can follow the flag: without it, a leading zero would be the flag. */
  predicate WidthDigits(zero: bool, digits: seq<byte>) {
    && (forall c :: c in digits ==> IsDigit(c))
    && (!zero && digits != [] ==> digits[0] != '0' as int)
  }

  predicate SpecifierLike(c: byte) {
    !IsDigit(c) && c != 'l' as int && c != 'z' as int && c != '%' as int && c != 0
  }

  lemma LengthParsed(f: seq<byte>, i: nat, length: Length)
    requires i + |LengthText(length)| < |f| && f[i..i + |LengthText(length)|] == LengthText(length)
    requires SpecifierLike(f[i + |LengthText(length)|])
    ensures LengthAt(f, i) == (length, i + |LengthText(length)|)
  {
    match length
    case Default =>
    case Long => assert f[i..i + 1][0] == f[i];
    case LongLong => assert f[i..i + 2][0] == f[i] && f[i..i + 2][1] == f[i + 1];
    case Size => assert f[i..i + 1][0] == f[i];
  }

  lemma DirectiveParsed(f: seq<byte>, zero: bool, digits: seq<byte>, length: Length, start: nat, end: nat)
    requires start == (if zero then 2 else 1) && end == start + |digits| && |f| == end + |LengthText(length)| + 1
    requires (At(f, 1) == '0' as int <==> zero) && f[start..end] == digits && !IsDigit(At(f, end))
    requires (forall c :: c in digits ==> IsDigit(c)) && LengthAt(f, end) == (length, |f| - 1)
    ensures DirectiveAt(f, 1) == (Directive(zero, WidthOf(digits), length, f[|f| - 1]), |f|)
  {
    DigitsParsed(f, start, |digits|);
  }

  lemma OnePiece(f: seq<byte>, p: Piece, args: seq<Arg>)
    requires Pieces(f, 0) == [p] && Suits(p, args) && CString(f)
    ensures WellFormed(f, args) && Render(f, args) == PieceText(p, args)
  {
    assert [p][1..] == [] && [p][0] == p;
    assert Matches([], ArgsAfter(p, args)) && RenderPieces([], ArgsAfter(p, args)) == [];
    assert PieceText(p, args) + [] == PieceText(p, args);
  }

  lemma DirectedParses(zero: bool, digits: seq<byte>, length: Length, c: byte)
    requires WidthDigits(zero, digits) && SpecifierLike(c)
    ensures Pieces(Directed(zero, digits, length, c), 0) == [Directive(zero, WidthOf(digits), length, c)]
  {
    var f, flag, tail := Directed(zero, digits, length, c), if zero then ['0' as int] else [], LengthText(length);
    var start := 1 + |flag|;
    var end := start + |digits|;
    assert |f| == end + |tail| + 1 && f[0] == '%' as int && f[end + |tail|] == c;
    assert f[1..start] == flag && f[start..end] == digits && f[end..end + |tail|] == tail;
    FirstByte(f, zero, digits, tail, c, start, end);
    LengthParsed(f, end, length);
    DirectiveParsed(f, zero, digits, length, start, end);
    OnlyPiece(f, Directive(zero, WidthOf(digits), length, c));
  }

  lemma DirectedIsCString(zero: bool, digits: seq<byte>, length: Length, c: byte)
    requires WidthDigits(zero, digits) && SpecifierLike(c)
    ensures CString(Directed(zero, digits, length, c))
  {
    forall b | b in Directed(zero, digits, length, c) ensures b != 0 {
      assert b == '%' as int || b == '0' as int || b in digits || b in LengthText(length) || b == c;
    }
  }

  lemma OnlyPiece(f: seq<byte>, p: Piece)
    requires |f| > 1 && f[0] == '%' as int && f[1] != '%' as int && DirectiveAt(f, 1) == (p, |f|)
    ensures Pieces(f, 0) == [p]
  {
    assert Pieces(f, |f|) == [] && PieceAt(f, 0) == (p, |f|);
    assert [p] + [] == [p];
  }

  /** The byte behind the percent sign is the flag exactly when there is one, and never a second percent sign. */
  lemma FirstByte(f: seq<byte>, zero: bool, digits: seq<byte>, tail: seq<byte>, c: byte, start: nat, end: nat)
    requires WidthDigits(zero, digits) && SpecifierLike(c) && start == (if zero then 2 else 1)
    requires end == start + |digits| && |f| == end + |tail| + 1 && f[end + |tail|] == c
    requires (zero ==> f[1] == '0' as int) && f[start..end] == digits && f[end..end + |tail|] == tail
    requires tail != [] ==> tail[0] == 'l' as int || tail[0] == 'z' as int
    ensures (f[1] == '0' as int <==> zero) && f[1] != '%' as int && !IsDigit(At(f, end))
  {
    if tail != [] {
      assert f[end..end + |tail|][0] == f[end];
    }
    if !zero && digits != [] {
      assert f[start..end][0] == f[start] && digits[0] in digits;
    }
  }

  /** A format of one directive prints what the directive makes of its argument. */
  lemma DirectedRenders(zero: bool, digits: seq<byte>, length: Length, c: byte, a: Arg)
    requires WidthDigits(zero, digits) && SpecifierLike(c)
    requires var p := Directive(zero, WidthOf(digits), length, c); Takes(p) && Accepts(p, a)
    ensures var f := Directed(zero, digits, length, c);
            && WellFormed(f, [a]) && Render(f, [a]) == Converted(Directive(zero, WidthOf(digits), length, c), a)
  {
    var f, p := Directed(zero, digits, length, c), Directive(zero, WidthOf(digits), length, c);
    DirectedParses(zero, digits, length, c);
    DirectedIsCString(zero, digits, length, c);
    OnePiece(f, p, [a]);
  }

  /** A numeral in its field. */
  ghost predicate PrintsNumber(text: seq<byte>, zero: bool, width: nat, prefix: seq<byte>,
                               base: nat, upper: bool, m: nat)
  {
    exists body :: IsNumeral(base, upper, body, m) && InField(text, zero, width, prefix, body)
  }

  ghost predicate PrintsSigned(text: seq<byte>, zero: bool, width: nat, v: int) {
    PrintsNumber(text, zero, width, if v < 0 then ['-' as int] else [], 10, false, if v < 0 then -v else v)
  }

  // ---------------------------------------------------------------- what each prints

  /** `%d` and `%i`: the argument in decimal, behind its sign. */
  lemma SignedDirective(zero: bool, digits: seq<byte>, length: Length, c: byte, v: s64)
    requires WidthDigits(zero, digits) && (c == 'd' as int || c == 'i' as int)
    ensures var f, args := Directed(zero, digits, length, c), [Signed(length, v)];
            WellFormed(f, args) && PrintsSigned(Render(f, args), zero, WidthOf(digits), v)
  {
    DirectedRenders(zero, digits, length, c, Signed(length, v));
    DigitTextIsNumeral(10, Magnitude(v), false);
    FieldIsField(zero, WidthOf(digits), Sign(v), DigitText(10, Magnitude(v), false));
  }

  /** `%u`, `%x` and `%X`: the argument in decimal, or in hexadecimal with letters of that case. */
  lemma UnsignedDirective(zero: bool, digits: seq<byte>, length: Length, c: byte, v: u64)
    requires WidthDigits(zero, digits) && (c == 'u' as int || c == 'x' as int || c == 'X' as int)
    ensures var f, args := Directed(zero, digits, length, c), [Unsigned(length, v)];
            && WellFormed(f, args)
            && PrintsNumber(Render(f, args), zero, WidthOf(digits), [],
                            if c == 'u' as int then 10 else 16, c == 'X' as int, v)
  {
    var base := if c == 'u' as int then 10 else 16;
    DirectedRenders(zero, digits, length, c, Unsigned(length, v));
    DigitTextIsNumeral(base, v, c == 'X' as int);
    FieldIsField(zero, WidthOf(digits), [], DigitText(base, v, c == 'X' as int));
  }

  /** `%p`: "0x" and the address in hexadecimal. */
  lemma PointerDirective(zero: bool, digits: seq<byte>, length: Length, address: u32)
    requires WidthDigits(zero, digits)
    ensures var f, args := Directed(zero, digits, length, 'p' as int), [Pointer(address)];
            && WellFormed(f, args)
            && PrintsNumber(Render(f, args), zero, WidthOf(digits), ['0' as int, 'x' as int], 16, false, address)
  {
    DirectedRenders(zero, digits, length, 'p' as int, Pointer(address));
    DigitTextIsNumeral(16, address, false);
    FieldIsField(zero, WidthOf(digits), HEX_PREFIX, DigitText(16, address, false));
  }

  /** `%c`: one byte behind spaces, whatever the flag. */
  lemma CharDirective(zero: bool, digits: seq<byte>, length: Length, v: s64)
    requires WidthDigits(zero, digits)
    ensures var f, args := Directed(zero, digits, length, 'c' as int), [Signed(Default, v)];
            && WellFormed(f, args) && InField(Render(f, args), false, WidthOf(digits), [], [v % 256])
  {
    DirectedRenders(zero, digits, length, 'c' as int, Signed(Default, v));
    PaddedIsField(WidthOf(digits), [v % 256]);
  }

  /** `%s`: the string, or "(null)", behind spaces, whatever the flag. */
  lemma StringDirective(zero: bool, digits: seq<byte>, length: Length, a: Arg)
    requires WidthDigits(zero, digits)
    requires a.NullText? || (a.Text? && CString(a.bytes) && |a.bytes| < TWO32)
    ensures var f := Directed(zero, digits, length, 's' as int);
            && WellFormed(f, [a])
            && InField(Render(f, [a]), false, WidthOf(digits), [],
                       if a.Text? then a.bytes
                       else ['(' as int, 'n' as int, 'u' as int, 'l' as int, 'l' as int, ')' as int])
  {
    DirectedRenders(zero, digits, length, 's' as int, a);
    PaddedIsField(WidthOf(digits), if a.Text? then a.bytes else NULL_TEXT);
  }

  lemma PaddedIsField(width: nat, body: seq<byte>)
    ensures InField(Repeat(SPACE, Padding(width, |body|)) + body, false, width, [], body)
  {
    FieldIsField(false, width, [], body);
    assert Repeat(SPACE, Padding(width, |body|)) + [] + body == Repeat(SPACE, Padding(width, |body|)) + body;
  }

  /** Any other specifier is printed as it stands, behind its percent sign, and takes no argument. */
  lemma UnknownDirective(zero: bool, digits: seq<byte>, length: Length, c: byte)
    requires WidthDigits(zero, digits) && SpecifierLike(c)
    requires c != 'd' as int && c != 'i' as int && c != 'c' as int && c != 's' as int
    requires c != 'u' as int && c != 'x' as int && c != 'X' as int && c != 'p' as int
    ensures var f := Directed(zero, digits, length, c);
            WellFormed(f, []) && Render(f, []) == ['%' as int, c]
  {
    var f, p := Directed(zero, digits, length, c), Directive(zero, WidthOf(digits), length, c);
    DirectedParses(zero, digits, length, c);
    DirectedIsCString(zero, digits, length, c);
    OnePiece(f, p, []);
  }

  /** Two percent signs print one; a format cut short behind its percent sign prints that; other bytes themselves. */
  lemma {:induction false} LiteralRenders(text: seq<byte>)
    requires CString(text) && '%' as int !in text
    ensures WellFormed(text, []) && Render(text, []) == text
    ensures WellFormed(['%' as int, '%' as int], []) && Render(['%' as int, '%' as int], []) == ['%' as int]
    ensures WellFormed(['%' as int], []) && Render(['%' as int], []) == ['%' as int]
  {
    LiteralFrom(text, 0);
    assert text[0..] == text;
    var two, one := ['%' as int, '%' as int], ['%' as int];
    assert Pieces(two, 2) == [] && Pieces(one, 1) == [];
    assert Pieces(two, 0) == [Copy(PERCENT)] && Pieces(one, 0) == [CutShort];
    OnePiece(two, Copy(PERCENT), []);
    OnePiece(one, CutShort, []);
  }

  lemma {:induction false} LiteralFrom(text: seq<byte>, i: nat)
    requires i <= |text| && '%' as int !in text
    ensures Matches(Pieces(text, i), []) && RenderPieces(Pieces(text, i), []) == text[i..]
    decreases |text| - i
  {
    if i < |text| {
      LiteralFrom(text, i + 1);
      assert Pieces(text, i)[1..] == Pieces(text, i + 1) && Pieces(text, i)[0] == Copy(text[i]);
      assert text[i..] == [text[i]] + text[i + 1..];
    }
  }
}

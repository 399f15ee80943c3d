/** Laws of formatted text: fields have their width and read back, and formats compose. */
module FormatLaws {
  import opened Machine
  import opened Numerals
  import opened FormatText
  import opened Format

  /** The text without its leading spaces. */
  function Trim(text: seq<byte>): (r: seq<byte>) {
    if text != [] && text[0] == SPACE then Trim(text[1..]) else text
  }

  /** The number a reader finds in a field: leading spaces, an optional minus sign, digits. */
  function ReadNumber(base: nat, field: seq<byte>): (v: int) {
    var text := Trim(field);
    if text != [] && text[0] == MINUS then 0 - ReadText(base, text[1..]) else ReadText(base, text)
  }

  lemma {:induction false} TrimPadding(n: nat, text: seq<byte>)
    requires text != [] && text[0] != SPACE
    ensures Trim(Repeat(SPACE, n) + text) == text
  {
    var whole := Repeat(SPACE, n) + text;
    if n == 0 {
      assert whole == text;
    } else {
      TrimPadding(n - 1, text);
      assert whole[1..] == Repeat(SPACE, n - 1) + text;
    }
  }

  lemma {:induction false} LeadingZero(base: nat, ds: seq<nat>)
    ensures Value(base, [0] + ds) == Value(base, ds)
  {
    if ds == [] {
      assert [0] + ds == [] + [0];
      ValueAppend(base, [], 0);
    } else {
      var front, d := ds[..|ds|-1], ds[|ds|-1];
      assert [0] + ds == ([0] + front) + [d];
      ValueAppend(base, [0] + front, d);
      LeadingZero(base, front);
    }
  }

  lemma {:induction false} ZeroPadding(base: nat, n: nat, text: seq<byte>)
    ensures ReadText(base, Repeat(ZERO, n) + text) == ReadText(base, text)
  {
    if n == 0 {
      assert Repeat(ZERO, n) + text == text;
    } else {
      ZeroPadding(base, n - 1, text);
      var shorter := Repeat(ZERO, n - 1) + text;
      assert Readings(Repeat(ZERO, n) + text) == [0] + Readings(shorter);
      LeadingZero(base, Readings(shorter));
    }
  }

  /** A digit text is not empty and starts with neither a space nor a minus sign. */
  lemma DigitTextStarts(base: nat, m: nat, upper: bool)
    requires Base(base)
    ensures var text := DigitText(base, m, upper); text != [] && text[0] != SPACE && text[0] != MINUS
  {
    DigitsReadBack(base, m);
  }

  /** A field is as wide as asked, or as its contents need. */
  lemma FieldWidth(zero: bool, width: nat, prefix: seq<byte>, digits: seq<byte>)
    ensures |Field(zero, width, prefix, digits)| == Max(width, |prefix| + |digits|)
  {
    assert |Repeat(ZERO, Padding(width, |digits| + |prefix|))| == Padding(width, |digits| + |prefix|);
  }

  /** Any signed field, of any width and with either padding, reads back as its argument. */
  lemma SignedFieldReadsBack(zero: bool, width: nat, v: s64)
    ensures ReadNumber(10, Field(zero, width, Sign(v), DigitText(10, Magnitude(v), false))) == v
  {
    var digits := DigitText(10, Magnitude(v), false);
    var n := Padding(width, |digits| + |Sign(v)|);
    DigitTextStarts(10, Magnitude(v), false);
    TextReadsBack(10, Magnitude(v), false);
    if zero {
      ZeroPadding(10, n, digits);
      var padded := Repeat(ZERO, n) + digits;
      assert Sign(v) + Repeat(ZERO, n) + digits == Sign(v) + padded;
      assert Trim(Sign(v) + padded) == Sign(v) + padded;
      assert v < 0 ==> (Sign(v) + padded)[1..] == padded;
      assert v >= 0 ==> Sign(v) + padded == padded;
    } else {
      var text := Sign(v) + digits;
      TrimPadding(n, text);
      assert Repeat(SPACE, n) + Sign(v) + digits == Repeat(SPACE, n) + text;
      assert v < 0 ==> text[1..] == digits;
      assert v >= 0 ==> text == digits;
    }
  }

  /** Any unsigned field, decimal or hexadecimal in either case, reads back as its argument. */
  lemma UnsignedFieldReadsBack(base: nat, zero: bool, width: nat, v: u64, upper: bool)
    requires Base(base)
    ensures ReadNumber(base, Field(zero, width, [], DigitText(base, v, upper))) == v
  {
    var digits := DigitText(base, v, upper);
    var n := Padding(width, |digits|);
    DigitTextStarts(base, v, upper);
    TextReadsBack(base, v, upper);
    if zero {
      ZeroPadding(base, n, digits);
      var padded := Repeat(ZERO, n) + digits;
      assert [] + Repeat(ZERO, n) + digits == padded;
      assert Trim(padded) == padded;
    } else {
      TrimPadding(n, digits);
      assert Repeat(SPACE, n) + [] + digits == Repeat(SPACE, n) + digits;
    }
  }

  /** What a buffer of `size` bytes receives: as much of the text as leaves room for the NUL, the NUL, and no more. */
  lemma DeliveredMeans(before: seq<byte>, after: seq<byte>, base: nat, size: nat, text: seq<byte>)
    requires base + size <= |before| && size > 0 && Delivered(before, after, base, size, text)
    ensures var n := Min(|text|, size - 1);
            && |after| == |before|
            && after[base..base + n] == text[..n] && after[base + n] == 0
            && after[..base] == before[..base] && after[base + n + 1..] == before[base + n + 1..]
  {
    var n := Min(|text|, size - 1);
    assert Stored(|text|, size) == n;
    forall k | 0 <= k < n ensures after[base + k] == text[k] {
    }
    forall k | base + n < k < |after| ensures after[k] == before[k] {
    }
    assert after[base + n + 1..] == before[base + n + 1..];
  }

  /** A buffer one byte larger than the measured length receives the whole text and its NUL. */
  lemma MeasuredFits(before: seq<byte>, after: seq<byte>, base: nat, text: seq<byte>)
    requires base + |text| + 1 <= |before| && Delivered(before, after, base, |text| + 1, text)
    ensures |after| == |before| && after[base..base + |text|] == text && after[base + |text|] == 0
  {
    assert text[..|text|] == text;
    forall k | 0 <= k < |text| ensures after[base + k] == text[k] {
    }
  }

  lemma {:induction false} DigitsScanned(f: seq<byte>, g: seq<byte>, i: nat, w: nat)
    requires i <= |f| && DigitsEnd(f, i) < |f| && w < 1000000
    ensures DigitsEnd(f + g, i) == DigitsEnd(f, i) && WidthFrom(f + g, i, w) == WidthFrom(f, i, w)
    decreases |f| - i
  {
    if IsDigit(At(f, i)) {
      DigitsScanned(f, g, i + 1, Widen(w, At(f, i)));
    }
  }

  /** A piece that ends inside `f` does not depend on what follows `f`. */
  lemma PieceScanned(f: seq<byte>, g: seq<byte>, i: nat)
    requires i < |f| && PieceAt(f, i).0 != CutShort
    ensures PieceAt(f + g, i) == PieceAt(f, i)
  {
    if f[i] == PERCENT && At(f, i + 1) != PERCENT {
      var start := if At(f, i + 1) == ZERO then i + 2 else i + 1;
      DigitsScanned(f, g, start, 0);
    }
  }

  lemma {:induction false} DigitsShifted(f: seq<byte>, g: seq<byte>, i: nat, w: nat)
    requires i <= |g| && w < 1000000
    ensures DigitsEnd(f + g, |f| + i) == |f| + DigitsEnd(g, i)
    ensures WidthFrom(f + g, |f| + i, w) == WidthFrom(g, i, w)
    decreases |g| - i
  {
    if IsDigit(At(g, i)) {
      DigitsShifted(f, g, i + 1, Widen(w, At(g, i)));
    }
  }

  lemma AtShifted(f: seq<byte>, g: seq<byte>, i: nat)
    ensures At(f + g, |f| + i) == At(g, i)
  {
  }

  lemma LengthShifted(f: seq<byte>, g: seq<byte>, i: nat)
    requires i <= |g|
    ensures LengthAt(f + g, |f| + i) == (LengthAt(g, i).0, |f| + LengthAt(g, i).1)
  {
    AtShifted(f, g, i);
    AtShifted(f, g, i + 1);
  }

  lemma DirectiveShifted(f: seq<byte>, g: seq<byte>, i: nat)
    requires i <= |g|
    ensures DirectiveAt(f + g, |f| + i) == (DirectiveAt(g, i).0, |f| + DirectiveAt(g, i).1)
  {
    AtShifted(f, g, i);
    var start := if At(g, i) == ZERO then i + 1 else i;
    DigitsShifted(f, g, start, 0);
    LengthShifted(f, g, DigitsEnd(g, start));
  }

  lemma PieceShifted(f: seq<byte>, g: seq<byte>, i: nat)
    requires i < |g|
    ensures PieceAt(f + g, |f| + i) == (PieceAt(g, i).0, |f| + PieceAt(g, i).1)
  {
    AtShifted(f, g, i + 1);
    DirectiveShifted(f, g, i + 1);
  }

  lemma {:induction false} PiecesShifted(f: seq<byte>, g: seq<byte>, i: nat)
    requires i <= |g|
    ensures Pieces(f + g, |f| + i) == Pieces(g, i)
    decreases |g| - i
  {
    if i < |g| {
      var whole, p, j := f + g, PieceAt(g, i).0, PieceAt(g, i).1;
      PieceShifted(f, g, i);
      PiecesShifted(f, g, j);
      PiecesCons(whole, |f| + i, p, |f| + j);
      PiecesCons(g, i, p, j);
    }
  }

  lemma PiecesCons(format: seq<byte>, i: nat, p: Piece, j: nat)
    requires i < |format| && PieceAt(format, i) == (p, j)
    ensures Pieces(format, i) == [p] + Pieces(format, j)
  {
  }

  lemma {:induction false} PiecesAppend(f: seq<byte>, g: seq<byte>, i: nat)
    requires i <= |f| && CutShort !in Pieces(f, i)
    ensures Pieces(f + g, i) == Pieces(f, i) + Pieces(g, 0)
    decreases |f| - i
  {
    if i == |f| {
      PiecesShifted(f, g, 0);
    } else {
      PieceScanned(f, g, i);
      PiecesAppend(f, g, PieceAt(f, i).1);
    }
  }

  lemma PieceTextAppend(p: Piece, a: seq<Arg>, b: seq<Arg>)
    requires Suits(p, a)
    ensures Suits(p, a + b) && PieceText(p, a + b) == PieceText(p, a) && ArgsAfter(p, a + b) == ArgsAfter(p, a) + b
  {
    if Takes(p) {
      assert (a + b)[0] == a[0];
      assert (a + b)[1..] == a[1..] + b;
    }
  }

  lemma {:induction false} RenderPiecesAppend(ps: seq<Piece>, a: seq<Arg>, qs: seq<Piece>, b: seq<Arg>)
    requires Matches(ps, a) && Exhausts(ps, a) && Matches(qs, b)
    ensures Matches(ps + qs, a + b) && RenderPieces(ps + qs, a + b) == RenderPieces(ps, a) + RenderPieces(qs, b)
  {
    if ps == [] {
      assert ps + qs == qs && a + b == b;
    } else {
      var p, rest, left := ps[0], ps[1..], ArgsAfter(ps[0], a);
      PieceTextAppend(p, a, b);
      RenderPiecesAppend(rest, left, qs, b);
      RenderCons(p, rest + qs, a + b);
      ConsAppend(ps, qs);
      Associate(PieceText(p, a), RenderPieces(rest, left), RenderPieces(qs, b));
    }
  }

  lemma ConsAppend<T>(s: seq<T>, t: seq<T>)
    requires s != []
    ensures s + t == [s[0]] + (s[1..] + t)
  {
  }

  lemma RenderCons(p: Piece, ps: seq<Piece>, args: seq<Arg>)
    requires Suits(p, args) && Matches(ps, ArgsAfter(p, args))
    ensures Matches([p] + ps, args)
    ensures RenderPieces([p] + ps, args) == PieceText(p, args) + RenderPieces(ps, ArgsAfter(p, args))
  {
    assert ([p] + ps)[1..] == ps;
  }

  /** The pieces use up all the arguments. */
  predicate Exhausts(ps: seq<Piece>, args: seq<Arg>)
    requires Matches(ps, args)
  {
    if ps == [] then args == [] else Exhausts(ps[1..], ArgsAfter(ps[0], args))
  }

  /** Formats compose: two formats printed one after the other are one format printed once. */
  lemma RenderAppend(f: seq<byte>, a: seq<Arg>, g: seq<byte>, b: seq<Arg>)
    requires WellFormed(f, a) && WellFormed(g, b)
    requires CutShort !in Pieces(f, 0) && Exhausts(Pieces(f, 0), a)
    ensures WellFormed(f + g, a + b) && Render(f + g, a + b) == Render(f, a) + Render(g, b)
  {
    PiecesAppend(f, g, 0);
    RenderPiecesAppend(Pieces(f, 0), a, Pieces(g, 0), b);
  }
}

/** The bounded formatter: characters counted without limit, stored only while they fit. */
module Format {
  import opened Machine
  import opened Numerals
  import opened FormatText

  /** How many characters of a text of length `n` a buffer of `size` bytes receives. */
  function Stored(n: nat, size: nat): (k: nat) {
    if size == 0 then 0 else if n < size then n else size - 1
  }

  /** The first `n` bytes from `base` on come from `text`; nothing else changed. */
  ghost predicate Overlaid(before: seq<byte>, after: seq<byte>, base: nat, n: nat, text: seq<byte>) {
    && |after| == |before| && n <= |text|
    && forall j :: 0 <= j < |after| ==> after[j] == if base <= j < base + n then text[j - base] else before[j]
  }

  /** What formatting `text` into the `size` bytes at `base` leaves in memory. */
  ghost predicate Delivered(before: seq<byte>, after: seq<byte>, base: nat, size: nat, text: seq<byte>)
    requires base + size <= |before|
  {
    if size == 0 then after == before
    else Overlaid(before, after, base, Stored(|text|, size) + 1, text[..Stored(|text|, size)] + [0])
  }

  class FormatOutput {
    const buffer: array?<byte>
    const base: nat
    const size: u32
    var count: u32
    ghost const before: seq<byte>   // the buffer as it was
    ghost var text: seq<byte>       // every character put so far

    ghost predicate Valid()
      reads this, buffer
    {
      && count == |text| % 0x1_0000_0000
      && (buffer != null ==>
        && base + size <= buffer.Length && |text| < TWO32
        && Overlaid(before, buffer[..], base, Stored(|text|, size), text))
    }

    constructor (buffer: array?<byte>, base: nat, size: u32)
      requires buffer != null ==> base + size <= buffer.Length
      ensures Valid() && text == []
      ensures this.buffer == buffer && this.base == base && this.size == size
      ensures buffer != null ==> before == buffer[..]
    {
      this.buffer, this.base, this.size, count := buffer, base, size, 0;
      text := [];
      before := if buffer == null then [] else buffer[..];
    }

    /** A text of `n` more characters still fits the counter, if characters are stored at all. */
    ghost predicate Room(n: nat)
      reads this
    {
      buffer != null ==> |text| + n < TWO32
    }

    method Putc(value: byte)
      requires Valid() && Room(1)
      modifies this, buffer
      ensures Valid() && text == old(text) + [value]
    {
      if buffer != null && size != 0 && (count + 1) % 0x1_0000_0000 < size {
        buffer[base + count] := value;
      }
      count := (count + 1) % 0x1_0000_0000;
      text := text + [value];
    }

    method PutRepeated(value: byte, times: u32)
      requires Valid() && Room(times)
      modifies this, buffer
      ensures Valid() && text == old(text) + Repeat(value, times)
    {
      var left: u32 := times;
      while left != 0
        invariant Valid() && Room(left) && left <= times
        invariant text == old(text) + Repeat(value, times - left)
        decreases left
      {
        Putc(value);
        left := left - 1;
      }
    }

    method PutBytes(bytes: seq<byte>)
      requires Valid() && Room(|bytes|)
      modifies this, buffer
      ensures Valid() && text == old(text) + bytes
    {
      var i := 0;
      while i < |bytes|
        invariant i <= |bytes| && Valid() && Room(|bytes| - i)
        invariant text == old(text) + bytes[..i]
      {
        Putc(bytes[i]);
        i := i + 1;
      }
    }

    method PutField(digits: seq<byte>, width: u32, zero: bool, prefix: seq<byte>)
      requires Valid() && |digits| <= 32 && |prefix| <= 2
      requires Room(|Field(zero, width, prefix, digits)|)
      modifies this, buffer
      ensures Valid() && text == old(text) + Field(zero, width, prefix, digits)
    {
      var fieldSize: u32 := |digits| + |prefix|;
      var padding: u32 := if width > fieldSize then width - fieldSize else 0;
      if zero {
        PutBytes(prefix);
        PutRepeated(ZERO, padding);
      } else {
        PutRepeated(SPACE, padding);
        PutBytes(prefix);
      }
      PutBytes(digits);
    }

    method PutUnsigned(value: u64, base: u32, upper: bool, width: u32, zero: bool, prefix: seq<byte>)
      requires Valid() && Base(base) && |prefix| <= 2
      requires Room(|Field(zero, width, prefix, DigitText(base, value, upper))|)
      modifies this, buffer
      ensures Valid() && text == old(text) + Field(zero, width, prefix, DigitText(base, value, upper))
    {
      var digits := new byte[32];
      var digitCount: nat;
      if base == 16 {
        digitCount := HexDigits(value, upper, digits);
      } else {
        digitCount := DecimalDigits(value, upper, digits);
      }
      PutField(digits[..digitCount], width, zero, prefix);
    }

    method PutSigned(value: s64, width: u32, zero: bool)
      requires Valid()
      requires Room(|Field(zero, width, Sign(value), DigitText(10, Magnitude(value), false))|)
      modifies this, buffer
      ensures Valid() && text == old(text) + Field(zero, width, Sign(value), DigitText(10, Magnitude(value), false))
    {
      var magnitude: u64, prefix := 0, [];
      if value < 0 {
        var complement: s64 := -(value + 1);
        magnitude := complement;
        magnitude := magnitude + 1;
        prefix := [MINUS];
      } else {
        magnitude := value;
      }
      PutUnsigned(magnitude, 10, false, width, zero, prefix);
    }

    method PutString(bytes: seq<byte>, width: u32)
      requires Valid() && |bytes| < TWO32 && Room(Padding(width, |bytes|) + |bytes|)
      modifies this, buffer
      ensures Valid() && text == old(text) + (Repeat(SPACE, Padding(width, |bytes|)) + bytes)
    {
      if width > |bytes| {
        PutRepeated(SPACE, width - |bytes|);
      }
      PutBytes(bytes);
    }

    /** The conversion switch for a directive that takes an argument. */
    method PutConverted(p: Piece, a: Arg)
      requires Valid() && Takes(p) && Accepts(p, a) && Room(|Converted(p, a)|)
      modifies this, buffer
      ensures Valid() && text == old(text) + Converted(p, a)
    {
      if p.specifier == 'c' as int {
        if p.width > 1 {
          PutRepeated(SPACE, p.width - 1);
        }
        Putc(a.value % 256);
      } else if p.specifier == 's' as int {
        PutString(if a.NullText? then NULL_TEXT else a.bytes, p.width);
      } else if p.specifier == 'd' as int || p.specifier == 'i' as int {
        PutSigned(a.value, p.width, p.zero);
      } else if p.specifier == 'u' as int {
        PutUnsigned(a.bits, 10, false, p.width, p.zero, []);
      } else if p.specifier == 'x' as int {
        PutUnsigned(a.bits, 16, false, p.width, p.zero, []);
      } else if p.specifier == 'X' as int {
        PutUnsigned(a.bits, 16, true, p.width, p.zero, []);
      } else {
        PutUnsigned(a.address, 16, false, p.width, p.zero, HEX_PREFIX);
      }
    }

    method PutPlain(p: Piece)
      requires Valid() && Room(|Plain(p)|)
      modifies this, buffer
      ensures Valid() && text == old(text) + Plain(p)
    {
      match p {
        case Copy(c) => Putc(c);
        case Directive(_, _, _, specifier) => Putc(PERCENT); Putc(specifier);
        case CutShort => Putc(PERCENT);
      }
    }

    method PutPiece(p: Piece, args: seq<Arg>)
      requires Valid() && Suits(p, args) && Room(|PieceText(p, args)|)
      modifies this, buffer
      ensures Valid() && text == old(text) + PieceText(p, args)
    {
      if Takes(p) {
        PutConverted(p, args[0]);
      } else {
        PutPlain(p);
      }
    }

    /** The final NUL, after the text or in the last byte. */
    method Terminate()
      requires Valid()
      modifies buffer
      ensures text == old(text) && count == old(count)
      ensures buffer != null ==> Delivered(before, buffer[..], base, size, text)
    {
      if buffer != null && size != 0 {
        var terminator := if count < size then count else size - 1;
        buffer[base + terminator] := 0;
      }
    }
  }

  /** The flags, width and length modifier of the directive at `i`. */
  method ReadDirective(format: seq<byte>, i: nat) returns (p: Piece, next: nat)
    requires i <= |format|
    ensures (p, next) == DirectiveAt(format, i)
  {
    var zero, length, j := false, Default, i;
    var width: nat := 0;
    if At(format, j) == ZERO {
      zero := true;
      j := j + 1;
    }
    ghost var start := j;
    while IsDigit(At(format, j))
      invariant start <= j <= |format| && width < 1000000
      invariant DigitsEnd(format, start) == DigitsEnd(format, j)
      invariant WidthFrom(format, start, 0) == WidthFrom(format, j, width)
      decreases |format| - j
    {
      if width < 100000 {
        width := 8 * width + 2 * width + (At(format, j) - ZERO);
      }
      j := j + 1;
    }
    if At(format, j) == 'l' as int {
      j := j + 1;
      length := Long;
      if At(format, j) == 'l' as int {
        j := j + 1;
        length := LongLong;
      }
    } else if At(format, j) == 'z' as int {
      j := j + 1;
      length := Size;
    }
    if j == |format| {
      return CutShort, j;
    }
    return Directive(zero, width, length, format[j]), j + 1;
  }

  method NextPiece(format: seq<byte>, i: nat) returns (p: Piece, next: nat)
    requires i < |format|
    ensures (p, next) == PieceAt(format, i)
  {
    if format[i] != PERCENT {
      return Copy(format[i]), i + 1;
    }
    if At(format, i + 1) == PERCENT {
      return Copy(PERCENT), i + 2;
    }
    p, next := ReadDirective(format, i + 1);
  }

  /** The format-scanning loop. */
  method PutFormat(output: FormatOutput, format: seq<byte>, args: seq<Arg>)
    requires WellFormed(format, args) && output.Valid() && output.text == [] && output.Room(|Render(format, args)|)
    modifies output, output.buffer
    ensures output.Valid() && output.text == Render(format, args)
  {
    var i, current := 0, args;
    ghost var whole := Render(format, args);
    while i < |format|
      invariant i <= |format| && output.Valid()
      invariant |output.text| <= |whole| && output.Room(|whole| - |output.text|)
      invariant Matches(Pieces(format, i), current)
      invariant whole == output.text + RenderPieces(Pieces(format, i), current)
      decreases |format| - i
    {
      RenderStep(format, i, current);
      var p, j := NextPiece(format, i);
      ghost var put, left := PieceText(p, current), RenderPieces(Pieces(format, j), ArgsAfter(p, current));
      assert whole == output.text + put + left;
      output.PutPiece(p, current);
      current := ArgsAfter(p, current);
      i := j;
    }
    assert whole == output.text;
  }

  /** Bounded formatting delivers a prefix of `Render` and returns its full length, whatever the size. */
  method Vsnprintf(buffer: array?<byte>, base: nat, size: u32, format: seq<byte>, args: seq<Arg>) returns (result: u32)
    requires WellFormed(format, args)
    requires buffer != null ==> base + size <= buffer.Length && |Render(format, args)| < TWO32
    modifies buffer
    ensures result == Min(|Render(format, args)| % 0x1_0000_0000, INT_MAX)
    ensures buffer != null ==> Delivered(old(buffer[..]), buffer[..], base, size, Render(format, args))
  {
    var output := new FormatOutput(buffer, base, size);
    PutFormat(output, format, args);
    output.Terminate();
    if output.count > INT_MAX {
      return INT_MAX;
    }
    return output.count;
  }
}

/** What a format string and its arguments mean: the text `Render` and the laws it obeys. */
module FormatText {
  import opened Machine
  import opened Numerals

  const ZERO: byte := 48
  const NINE: byte := 57
  const SPACE: byte := 32
  const PERCENT: byte := 37
  const MINUS: byte := 45

  type s64 = x: int | -0x8000_0000_0000_0000 <= x < 0x8000_0000_0000_0000

  /** The length modifier of a directive: none, `l`, `ll` or `z`. */
  datatype Length = Default | Long | LongLong | Size

  /** One variadic argument. A string is the bytes before its NUL. */
  datatype Arg =
    | Signed(size: Length, value: s64)
    | Unsigned(size: Length, bits: u64)
    | Text(bytes: seq<byte>)
    | NullText
    | Pointer(address: u32)

  /** One step of the format string: a byte to copy, a directive, or a directive cut short by the end. */
  datatype Piece =
    | Copy(c: byte)
    | Directive(zero: bool, width: u32, length: Length, specifier: byte)
    | CutShort

  /** The byte at `i`, or the terminating NUL. */
  function At(format: seq<byte>, i: nat): (c: byte) {
    if i < |format| then format[i] else 0
  }

  predicate CString(s: seq<byte>) {
    0 !in s
  }

  predicate IsDigit(c: byte) {
    ZERO <= c <= NINE
  }

  /** The first index at or after `i` that is not a digit. */
  function DigitsEnd(format: seq<byte>, i: nat): (j: nat)
    requires i <= |format|
    ensures i <= j <= |format| && !IsDigit(At(format, j))
    decreases |format| - i
  {
    if IsDigit(At(format, i)) then DigitsEnd(format, i + 1) else i
  }

  /** The width after one more digit; it stops growing once it has six digits. */
  function Widen(width: nat, c: byte): (w: nat)
    requires IsDigit(c) && width < 1000000
    ensures w < 1000000
  {
    if width < 100000 then 10 * width + (c - ZERO) else width
  }

  function WidthFrom(format: seq<byte>, i: nat, width: nat): (w: nat)
    requires i <= |format| && width < 1000000
    ensures w < 1000000
    decreases |format| - i
  {
    if IsDigit(At(format, i)) then WidthFrom(format, i + 1, Widen(width, At(format, i))) else width
  }

  /** The length modifier at `i` and the index after it. */
  function LengthAt(format: seq<byte>, i: nat): (r: (Length, nat))
    requires i <= |format|
    ensures i <= r.1 <= |format|
  {
    if At(format, i) == 'l' as int then
      if At(format, i + 1) == 'l' as int then (LongLong, i + 2) else (Long, i + 1)
    else if At(format, i) == 'z' as int then (Size, i + 1)
    else (Default, i)
  }

  /** The directive whose flags start at `i`, and the index after it. */
  function DirectiveAt(format: seq<byte>, i: nat): (r: (Piece, nat))
    requires i <= |format|
    ensures i <= r.1 <= |format| && !r.0.Copy?
  {
    var zero := At(format, i) == ZERO;
    var start := if zero then i + 1 else i;
    var (length, j) := LengthAt(format, DigitsEnd(format, start));
    if j == |format| then (CutShort, j)
    else (Directive(zero, WidthFrom(format, start, 0), length, format[j]), j + 1)
  }

  function PieceAt(format: seq<byte>, i: nat): (r: (Piece, nat))
    requires i < |format|
    ensures i < r.1 <= |format|
  {
    if format[i] != PERCENT then (Copy(format[i]), i + 1)
    else if At(format, i + 1) == PERCENT then (Copy(PERCENT), i + 2)
    else DirectiveAt(format, i + 1)
  }

  /** The pieces of the format string from `i` on. */
  function Pieces(format: seq<byte>, i: nat): (ps: seq<Piece>)
    requires i <= |format|
    decreases |format| - i
  {
    if i == |format| then [] else
    var (piece, j) := PieceAt(format, i);
    [piece] + Pieces(format, j)
  }

  predicate IsSigned(c: byte) { c == 'd' as int || c == 'i' as int }
  predicate IsHex(c: byte) { c == 'x' as int || c == 'X' as int }

  /** Does the piece take an argument? */
  predicate Takes(p: Piece) {
    && p.Directive?
    && (IsSigned(p.specifier) || IsHex(p.specifier) || p.specifier == 'c' as int || p.specifier == 's' as int
        || p.specifier == 'u' as int || p.specifier == 'p' as int)
  }

  /** Does the argument have the type that the piece reads it as? */
  predicate Accepts(p: Piece, a: Arg)
    requires Takes(p)
  {
    if IsSigned(p.specifier) then a.Signed? && a.size == p.length
    else if p.specifier == 'c' as int then a.Signed? && a.size == Default
    else if p.specifier == 's' as int then a.NullText? || (a.Text? && CString(a.bytes) && |a.bytes| < TWO32)
    else if p.specifier == 'p' as int then a.Pointer?
    else a.Unsigned? && a.size == p.length
  }

  function Repeat(c: byte, n: nat): (text: seq<byte>) {
    seq(n, _ => c)
  }

  function Padding(width: nat, used: nat): (n: nat) {
    if width > used then width - used else 0
  }

  /** A number in its field: zeros go after the prefix, spaces before it. */
  function Field(zero: bool, width: nat, prefix: seq<byte>, digits: seq<byte>): (text: seq<byte>) {
    var n := Padding(width, |digits| + |prefix|);
    if zero then prefix + Repeat(ZERO, n) + digits else Repeat(SPACE, n) + prefix + digits
  }

  function Magnitude(v: int): (m: nat) {
    if v < 0 then -v else v
  }

  function Sign(v: int): (prefix: seq<byte>) {
    if v < 0 then [MINUS] else []
  }

  const NULL_TEXT: seq<byte> := [40, 110, 117, 108, 108, 41]   // "(null)"
  const HEX_PREFIX: seq<byte> := [48, 120]                     // "0x"

  /** The text of a directive with its argument. */
  function Converted(p: Piece, a: Arg): (text: seq<byte>)
    requires Takes(p) && Accepts(p, a)
  {
    if IsSigned(p.specifier) then
      Field(p.zero, p.width, Sign(a.value), DigitText(10, Magnitude(a.value), false))
    else if p.specifier == 'c' as int then
      Repeat(SPACE, Padding(p.width, 1)) + [a.value % 256]
    else if p.specifier == 's' as int then
      var bytes := if a.NullText? then NULL_TEXT else a.bytes;
      Repeat(SPACE, Padding(p.width, |bytes|)) + bytes
    else if p.specifier == 'p' as int then
      Field(p.zero, p.width, HEX_PREFIX, DigitText(16, a.address, false))
    else if p.specifier == 'u' as int then
      Field(p.zero, p.width, [], DigitText(10, a.bits, false))
    else
      Field(p.zero, p.width, [], DigitText(16, a.bits, p.specifier == 'X' as int))
  }

  /** The text of a piece that takes no argument. */
  function Plain(p: Piece): (text: seq<byte>) {
    match p
    case Copy(c) => [c]
    case Directive(_, _, _, specifier) => [PERCENT, specifier]
    case CutShort => [PERCENT]
  }

  /** Does the next argument suit the piece? */
  predicate Suits(p: Piece, args: seq<Arg>) {
    Takes(p) ==> args != [] && Accepts(p, args[0])
  }

  function PieceText(p: Piece, args: seq<Arg>): (text: seq<byte>)
    requires Suits(p, args)
  {
    if Takes(p) then Converted(p, args[0]) else Plain(p)
  }

  /** The arguments left after the piece. */
  function ArgsAfter(p: Piece, args: seq<Arg>): (rest: seq<Arg>)
    requires Suits(p, args)
  {
    if Takes(p) then args[1..] else args
  }

  predicate Matches(ps: seq<Piece>, args: seq<Arg>) {
    ps == [] || (Suits(ps[0], args) && Matches(ps[1..], ArgsAfter(ps[0], args)))
  }

  function RenderPieces(ps: seq<Piece>, args: seq<Arg>): (text: seq<byte>)
    requires Matches(ps, args)
  {
    if ps == [] then [] else PieceText(ps[0], args) + RenderPieces(ps[1..], ArgsAfter(ps[0], args))
  }

  /** Rendering from `i` on is rendering one piece and then the rest. */
  lemma RenderStep(format: seq<byte>, i: nat, args: seq<Arg>)
    requires i < |format| && Matches(Pieces(format, i), args)
    ensures var (p, j) := PieceAt(format, i);
      && Suits(p, args) && Matches(Pieces(format, j), ArgsAfter(p, args))
      && RenderPieces(Pieces(format, i), args)
         == PieceText(p, args) + RenderPieces(Pieces(format, j), ArgsAfter(p, args))
  {
    var (p, j) := PieceAt(format, i);
    assert Pieces(format, i)[1..] == Pieces(format, j);
  }

  predicate WellFormed(format: seq<byte>, args: seq<Arg>) {
    CString(format) && Matches(Pieces(format, 0), args)
  }

  /** The whole text of a format string and its arguments. */
  function Render(format: seq<byte>, args: seq<Arg>): (text: seq<byte>)
    requires WellFormed(format, args)
  {
    RenderPieces(Pieces(format, 0), args)
  }
}

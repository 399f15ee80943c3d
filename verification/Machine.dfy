/** A 32-bit little-endian machine: bytes, unsigned words, and words kept in byte memory. */
module Machine {

  const TWO32: nat := 0x1_0000_0000
  const TWO64: nat := 0x1_0000_0000_0000_0000
  const INT_MAX: u32 := 0x7FFF_FFFF

  type byte = x: int | 0 <= x < 256
  type u32 = x: int | 0 <= x < 0x1_0000_0000
  type u64 = x: int | 0 <= x < 0x1_0000_0000_0000_0000

  /** A pointer to characters, which may be null. */
  datatype CharPtr = Null | Chars(bytes: seq<byte>)

  function Min(a: int, b: int): (r: int) {
    if a < b then a else b
  }

  function Max(a: int, b: int): (r: int) {
    if a < b then b else a
  }

  lemma Associate<T>(a: seq<T>, b: seq<T>, c: seq<T>)
    ensures a + b + c == a + (b + c)
  {
  }

  const WORD_BYTES: nat := 4

  /** Value range of `n` bytes. */
  function Range(n: nat): (r: nat)
    ensures r > 0
  {
    if n == 0 then 1 else 256 * Range(n - 1)
  }

  /** The little-endian value of the `n` bytes at address `a`. */
  function GetBytes(m: seq<byte>, a: nat, n: nat): (w: nat)
    requires a + n <= |m|
    ensures w < Range(n)
    decreases n
  {
    if n == 0 then 0 else m[a] + 256 * GetBytes(m, a + 1, n - 1)
  }

  /** Memory after storing `w` little-endian in the `n` bytes at address `a`. */
  function PutBytes(m: seq<byte>, a: nat, n: nat, w: nat): (r: seq<byte>)
    requires a + n <= |m| && w < Range(n)
    ensures |r| == |m| && GetBytes(r, a, n) == w
    ensures forall k :: 0 <= k < |m| && !(a <= k < a + n) ==> r[k] == m[k]
    decreases n
  {
    if n == 0 then m else PutBytes(m[a := w % 256], a + 1, n - 1, w / 256)
  }

  lemma {:induction false} GetBytesFrame(m: seq<byte>, m': seq<byte>, a: nat, n: nat)
    requires |m'| == |m| && a + n <= |m|
    requires forall k :: a <= k < a + n ==> m'[k] == m[k]
    ensures GetBytes(m', a, n) == GetBytes(m, a, n)
    decreases n
  {
    if n > 0 {
      GetBytesFrame(m, m', a + 1, n - 1);
    }
  }

  lemma WordRange()
    ensures Range(WORD_BYTES) == TWO32
  {
    assert Range(2) == 256 * Range(1);
    assert Range(3) == 256 * Range(2);
  }

  function GetWord(m: seq<byte>, a: nat): (w: u32)
    requires a + WORD_BYTES <= |m|
  {
    WordRange();
    GetBytes(m, a, WORD_BYTES)
  }

  function PutWord(m: seq<byte>, a: nat, w: u32): (r: seq<byte>)
    requires a + WORD_BYTES <= |m|
    ensures |r| == |m| && GetWord(r, a) == w
    ensures forall k :: 0 <= k < |m| && !(a <= k < a + WORD_BYTES) ==> r[k] == m[k]
  {
    WordRange();
    PutBytes(m, a, WORD_BYTES, w)
  }

  predicate WordAddress(m: seq<byte>, a: nat) {
    a % 4 == 0 && a + WORD_BYTES <= |m|
  }

  /** Memory seen as its aligned words. */
  function Words(m: seq<byte>): (w: map<nat, u32>) {
    map a: nat | 0 <= a < |m| && WordAddress(m, a) :: GetWord(m, a)
  }

  lemma WordAfterPut(m: seq<byte>, a: nat, w: u32, b: nat)
    requires WordAddress(m, a) && WordAddress(m, b) && a != b
    ensures GetWord(PutWord(m, a, w), b) == GetWord(m, b)
  {
    assert b + 4 <= a || a + 4 <= b by {
      assert a == 4 * (a / 4) && b == 4 * (b / 4);
    }
    GetBytesFrame(m, PutWord(m, a, w), b, WORD_BYTES);
  }

  lemma WordsAfterPut(m: seq<byte>, a: nat, w: u32)
    requires WordAddress(m, a)
    ensures Words(PutWord(m, a, w)) == Words(m)[a := w]
  {
    var r := PutWord(m, a, w);
    forall b: nat | WordAddress(m, b) && b != a ensures GetWord(r, b) == GetWord(m, b) {
      WordAfterPut(m, a, w, b);
    }
    assert forall b: nat :: WordAddress(r, b) <==> WordAddress(m, b);
  }

  lemma WordsFrame(m: seq<byte>, m': seq<byte>, a: nat)
    requires WordAddress(m, a) && |m'| == |m|
    requires forall k :: a <= k < a + WORD_BYTES ==> m'[k] == m[k]
    ensures a in Words(m) && a in Words(m') && Words(m')[a] == Words(m)[a]
  {
    GetBytesFrame(m, m', a, WORD_BYTES);
  }
}

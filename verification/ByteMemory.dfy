/** Byte memory with 32-bit little-endian word access at aligned addresses. */
module ByteMemory {
  import opened Machine

  class Memory {
    const bytes: array<byte>
    ghost var words: map<nat, u32>   // the aligned words the bytes stand for

    ghost predicate Valid()
      reads this, bytes
    {
      words == Words(bytes[..])
    }

    constructor (bytes: array<byte>)
      ensures Valid() && this.bytes == bytes
    {
      this.bytes := bytes;
      words := Words(bytes[..]);
    }

    method LoadWord(a: u32) returns (v: u32)
      requires Valid() && a % 4 == 0 && a + WORD_BYTES <= bytes.Length
      ensures a in words && v == words[a]
    {
      ghost var m := bytes[..];
      assert WordAddress(m, a);
      v := bytes[a] as int + 0x100 * bytes[a+1] as int + 0x1_0000 * bytes[a+2] as int + 0x100_0000 * bytes[a+3] as int;
      assert GetBytes(m, a + 3, 1) == m[a+3];
      assert GetBytes(m, a + 2, 2) == m[a+2] + 256 * GetBytes(m, a + 3, 1);
      assert GetBytes(m, a + 1, 3) == m[a+1] + 256 * GetBytes(m, a + 2, 2);
    }

    method StoreWord(a: u32, v: u32)
      requires Valid() && a % 4 == 0 && a + WORD_BYTES <= bytes.Length
      modifies bytes, `words
      ensures Valid() && words == old(words)[a := v]
      ensures forall k :: 0 <= k < bytes.Length && !(a <= k < a + WORD_BYTES) ==> bytes[k] == old(bytes[k])
    {
      ghost var m := bytes[..];
      assert WordAddress(m, a);
      ghost var r := PutWord(m, a, v);
      WordsAfterPut(m, a, v);
      var v1, v2, v3 := v / 0x100, v / 0x1_0000, v / 0x100_0000;
      bytes[a], bytes[a+1], bytes[a+2], bytes[a+3] := v % 0x100, v1 % 0x100, v2 % 0x100, v3;
      WordRange();
      assert r[a] + 0x100 * GetBytes(r, a + 1, 3) == v;
      assert r[a+1] + 0x100 * GetBytes(r, a + 2, 2) == v1;
      assert r[a+2] + 0x100 * GetBytes(r, a + 3, 1) == v2;
      assert r[a+3] == v3;
      assert bytes[..] == r;
      words := words[a := v];
    }

    method StoreByte(a: u32, v: byte)
      requires Valid() && a < bytes.Length
      modifies bytes, `words
      ensures Valid() && bytes[..] == old(bytes[..])[a := v]
      ensures forall b :: b in old(words) && !(b <= a < b + WORD_BYTES) ==> b in words && words[b] == old(words)[b]
    {
      ghost var m := bytes[..];
      bytes[a] := v;
      words := Words(bytes[..]);
      assert bytes[..] == m[a := v];
      forall b | b in old(words) && !(b <= a < b + WORD_BYTES) ensures b in words && words[b] == old(words)[b] {
        WordsFrame(m, bytes[..], b);
      }
    }

    /** Brings the words up to date after stores to `bytes` that touched nothing outside lo..hi. */
    ghost method Refresh(before: seq<byte>, lo: nat, hi: nat)
      requires words == Words(before) && |before| == bytes.Length
      requires forall k :: 0 <= k < bytes.Length && !(lo <= k < hi) ==> bytes[k] == before[k]
      modifies `words
      ensures Valid()
      ensures forall a :: a in old(words) && (a + WORD_BYTES <= lo || hi <= a) ==>
                a in words && words[a] == old(words)[a]
    {
      words := Words(bytes[..]);
      forall a | a in old(words) && (a + WORD_BYTES <= lo || hi <= a) ensures a in words && words[a] == old(words)[a] {
        WordsFrame(before, bytes[..], a);
      }
    }
  }
}

/** What the allocator may do to bytes: headers change, the payloads of live blocks do not. */
module HeapContents {
  import opened Machine
  import opened HeapBlocks
  import opened HeapImage

  /** Going from `m` to `m'`, only bytes of headers of `bs` or `bs'` may have changed. */
  ghost predicate OnlyHeaders(m: seq<byte>, m': seq<byte>, bs: seq<Block>, bs': seq<Block>) {
    && |m| == |m'|
    && forall k :: 0 <= k < |m| && !InHeader(bs, k) && !InHeader(bs', k) ==> m'[k] == m[k]
  }

  ghost predicate SamePayload(m: seq<byte>, m': seq<byte>, b: Block) {
    b.End() <= |m| && b.End() <= |m'| && m'[b.Payload()..b.End()] == m[b.Payload()..b.End()]
  }

  /**
   Every live block but the one whose payload is `except` is still a live block of the same size
   with the same bytes, and nothing outside [lo, hi) has changed.
   */
  ghost predicate LiveKept(m: seq<byte>, m': seq<byte>, bs: seq<Block>, bs': seq<Block>, except: nat,
                           lo: nat, hi: nat) {
    && |m| == |m'|
    && (forall b :: b in bs && !b.free && b.Payload() != except ==> b in bs' && SamePayload(m, m', b))
    && forall k :: 0 <= k < |m| && !(lo <= k < hi) ==> m'[k] == m[k]
  }

  lemma LiveKeptReflexive(m: seq<byte>, bs: seq<Block>, except: nat, lo: nat, hi: nat)
    requires (Tiles(bs, lo, hi) && hi <= |m|) || bs == []
    ensures LiveKept(m, m, bs, bs, except, lo, hi)
  {
    forall b | b in bs ensures b.End() <= |m| {
      var i :| 0 <= i < |bs| && bs[i] == b;
      Within(bs, lo, hi, i);
    }
  }

  lemma LiveKeptTransitive(m0: seq<byte>, m1: seq<byte>, m2: seq<byte>,
                           bs0: seq<Block>, bs1: seq<Block>, bs2: seq<Block>, e0: nat, e1: nat, lo: nat, hi: nat)
    requires LiveKept(m0, m1, bs0, bs1, e0, lo, hi) && LiveKept(m1, m2, bs1, bs2, e1, lo, hi)
    requires e0 == 0 || e0 == e1
    ensures LiveKept(m0, m2, bs0, bs2, e1, lo, hi)
  {
    forall b | b in bs0 && !b.free && b.Payload() != e1 ensures b in bs2 && SamePayload(m0, m2, b) {
      assert b in bs1 && SamePayload(m0, m1, b) && SamePayload(m1, m2, b);
    }
  }

  lemma PayloadOffHeaders(bs: seq<Block>, lo: nat, hi: nat, b: Block, k: nat)
    requires Tiles(bs, lo, hi) && b in bs && b.Payload() <= k < b.End()
    ensures !InHeader(bs, k)
  {
    var i :| 0 <= i < |bs| && bs[i] == b;
    forall j | 0 <= j < |bs| ensures !(bs[j].addr <= k < bs[j].addr + HEADER) {
      if j < i { Ordered(bs, lo, hi, j, i); }
      if i < j { Ordered(bs, lo, hi, i, j); }
    }
  }

  lemma HeadersWithin(bs: seq<Block>, lo: nat, hi: nat, k: int)
    requires Tiles(bs, lo, hi) && InHeader(bs, k)
    ensures lo <= k < hi
  {
    var i :| 0 <= i < |bs| && bs[i].addr <= k < bs[i].addr + HEADER;
    Within(bs, lo, hi, i);
  }

  /** Header stores spare every block that both lists have. */
  lemma HeaderStoresSpare(m: seq<byte>, m': seq<byte>, bs: seq<Block>, bs': seq<Block>, lo: nat, hi: nat, except: nat)
    requires OnlyHeaders(m, m', bs, bs') && Tiles(bs, lo, hi) && Tiles(bs', lo, hi) && hi <= |m|
    requires forall b :: b in bs && !b.free && b.Payload() != except ==> b in bs'
    ensures LiveKept(m, m', bs, bs', except, lo, hi)
  {
    forall b | b in bs && !b.free && b.Payload() != except ensures SamePayload(m, m', b) {
      var i :| 0 <= i < |bs| && bs[i] == b;
      Within(bs, lo, hi, i);
      forall k | b.Payload() <= k < b.End() ensures m'[k] == m[k] {
        PayloadOffHeaders(bs, lo, hi, b, k);
        PayloadOffHeaders(bs', lo, hi, b, k);
      }
    }
    forall k | 0 <= k < |m| && !(lo <= k < hi) ensures m'[k] == m[k] {
      if InHeader(bs, k) { HeadersWithin(bs, lo, hi, k); }
      if InHeader(bs', k) { HeadersWithin(bs', lo, hi, k); }
    }
  }

  /** The `n` bytes at `to` in `m'` are those at `from` in `m`. */
  ghost predicate Copied(m: seq<byte>, m': seq<byte>, from: nat, to: nat, n: nat) {
    from + n <= |m| && to + n <= |m'| && m'[to..to+n] == m[from..from+n]
  }

  ghost predicate SameBytes(m: seq<byte>, m': seq<byte>, p: nat, n: nat) {
    Copied(m, m', p, p, n)
  }

  lemma CopiedElementwise(m: seq<byte>, m': seq<byte>, from: nat, to: nat, n: nat)
    requires from + n <= |m| && to + n <= |m'|
    requires forall k :: to <= k < to + n ==> m'[k] == m[from + (k - to)]
    ensures Copied(m, m', from, to, n)
  {
    var after, before := m'[to..to+n], m[from..from+n];
    forall k | 0 <= k < n ensures after[k] == before[k] {
      assert m'[to + k] == m[from + k];
    }
  }

  lemma SameBytesTransitive(m0: seq<byte>, m1: seq<byte>, m2: seq<byte>, p: nat, n: nat, n': nat)
    requires SameBytes(m0, m1, p, n) && SameBytes(m1, m2, p, n') && n <= n'
    ensures SameBytes(m0, m2, p, n)
  {
    forall k | p <= k < p + n ensures m2[k] == m0[k] {
      assert m1[p..p+n][k-p] == m0[p..p+n][k-p] && m2[p..p+n'][k-p] == m1[p..p+n'][k-p];
    }
  }

  lemma SameBytesShorter(m: seq<byte>, m': seq<byte>, p: nat, n: nat, n': nat)
    requires SameBytes(m, m', p, n') && n <= n'
    ensures SameBytes(m, m', p, n)
  {
    SameBytesTransitive(m, m, m', p, n, n');
  }

  lemma PayloadPrefix(m: seq<byte>, m': seq<byte>, b: Block, n: nat)
    requires SamePayload(m, m', b) && n <= b.size
    ensures SameBytes(m, m', b.Payload(), n)
  {
    var p := b.Payload();
    forall k | p <= k < p + n ensures m'[k] == m[k] {
      assert m'[p..b.End()][k-p] == m[p..b.End()][k-p];
    }
  }

  /** Header stores spare the payload start that a block has both before and after. */
  lemma HeaderStoresSpareStart(m: seq<byte>, m': seq<byte>, bs: seq<Block>, bs': seq<Block>, lo: nat, hi: nat, i: nat)
    requires OnlyHeaders(m, m', bs, bs') && Tiles(bs, lo, hi) && Tiles(bs', lo, hi) && hi <= |m|
    requires i < |bs| && i < |bs'| && bs'[i].addr == bs[i].addr
    ensures SameBytes(m, m', bs[i].Payload(), Min(bs[i].size, bs'[i].size))
  {
    Within(bs, lo, hi, i);
    forall k | bs[i].Payload() <= k < bs[i].Payload() + Min(bs[i].size, bs'[i].size) ensures m'[k] == m[k] {
      PayloadOffHeaders(bs, lo, hi, bs[i], k);
      PayloadOffHeaders(bs', lo, hi, bs'[i], k);
    }
  }

  lemma SplitKeeps(bs: seq<Block>, i: nat, wanted: nat)
    requires i < |bs|
    ensures forall b :: b in bs && b != bs[i] ==> b in SplitAt(bs, i, wanted)
    ensures forall k :: InHeader(bs, k) ==> InHeader(SplitAt(bs, i, wanted), k)
  {
    var r := SplitAt(bs, i, wanted);
    if r != bs {
      forall j | 0 <= j < |bs|
        ensures (bs[j] == bs[i] || bs[j] in r) && exists j' :: 0 <= j' < |r| && r[j'].addr == bs[j].addr
      {
        assert r[if j <= i then j else j + 1].addr == bs[j].addr;
        assert j != i ==> r[if j <= i then j else j + 1] == bs[j];
      }
    }
  }

  lemma HeaderOf(bs: seq<Block>, i: nat, k: int)
    requires i < |bs| && bs[i].addr <= k < bs[i].addr + HEADER
    ensures InHeader(bs, k)
  {
  }

  /** All that a split does to bytes, from the three header positions it stores to. */
  lemma SplitSpares(m: seq<byte>, m': seq<byte>, bs: seq<Block>, lo: nat, hi: nat, i: nat, wanted: nat, except: nat)
    requires Tiles(bs, lo, hi) && hi <= |m| == |m'| && i < |bs| && (bs[i].free || bs[i].Payload() == except)
    requires wanted % 16 == 0 && wanted + HEADER + ALIGNMENT <= bs[i].size
    requires forall k :: 0 <= k < |m| && m'[k] != m[k] ==>
               || bs[i].addr <= k < bs[i].addr + HEADER
               || bs[i].Payload() + wanted <= k < bs[i].Payload() + wanted + HEADER
               || (i + 1 < |bs| && bs[i+1].addr <= k < bs[i+1].addr + HEADER)
    ensures LiveKept(m, m', bs, SplitAt(bs, i, wanted), except, lo, hi)
    ensures SameBytes(m, m', bs[i].Payload(), wanted)
  {
    var r := SplitAt(bs, i, wanted);
    SplitTiles(bs, lo, hi, i, wanted);
    SplitKeeps(bs, i, wanted);
    assert r[i+1].addr == bs[i].Payload() + wanted;
    forall k | 0 <= k < |m| && m'[k] != m[k] ensures InHeader(bs, k) || InHeader(r, k) {
      if bs[i].addr <= k < bs[i].addr + HEADER { HeaderOf(bs, i, k); }
      else if r[i+1].addr <= k < r[i+1].addr + HEADER { HeaderOf(r, i + 1, k); }
      else { HeaderOf(bs, i + 1, k); }
    }
    HeaderStoresSpare(m, m', bs, r, lo, hi, except);
    HeaderStoresSpareStart(m, m', bs, r, lo, hi, i);
  }

  /** All that a merge does to bytes, from the two header positions it stores to. */
  lemma MergeSpares(m: seq<byte>, m': seq<byte>, bs: seq<Block>, lo: nat, hi: nat, i: nat, except: nat)
    requires Tiles(bs, lo, hi) && hi <= |m| == |m'| && i < |bs| && CanMerge(bs, i)
    requires bs[i].free || bs[i].Payload() == except
    requires forall k :: 0 <= k < |m| && m'[k] != m[k] ==>
               || bs[i].addr <= k < bs[i].addr + HEADER
               || (i + 2 < |bs| && bs[i+2].addr <= k < bs[i+2].addr + HEADER)
    ensures LiveKept(m, m', bs, MergeAt(bs, i), except, lo, hi)
    ensures SameBytes(m, m', bs[i].Payload(), bs[i].size)
  {
    var r := MergeAt(bs, i);
    MergeTiles(bs, lo, hi, i);
    MergeKeeps(bs, i);
    forall k | 0 <= k < |m| && m'[k] != m[k] ensures InHeader(bs, k) {
      if bs[i].addr <= k < bs[i].addr + HEADER { HeaderOf(bs, i, k); } else { HeaderOf(bs, i + 2, k); }
    }
    HeaderStoresSpare(m, m', bs, r, lo, hi, except);
    HeaderStoresSpareStart(m, m', bs, r, lo, hi, i);
  }

  lemma MergeKeeps(bs: seq<Block>, i: nat)
    requires i < |bs|
    ensures forall b :: b in bs && b != bs[i] && !b.free ==> b in MergeAt(bs, i)
    ensures forall k :: InHeader(MergeAt(bs, i), k) ==> InHeader(bs, k)
  {
    var r := MergeAt(bs, i);
    if r != bs {
      forall j | 0 <= j < |bs| && j != i && !bs[j].free ensures bs[j] in r {
        assert r[if j < i then j else j - 1] == bs[j];
      }
      forall j | 0 <= j < |r| ensures exists j' :: 0 <= j' < |bs| && bs[j'].addr == r[j].addr {
        assert bs[if j <= i then j else j + 1].addr == r[j].addr;
      }
    }
  }

  lemma SetFreeKeeps(bs: seq<Block>, i: nat, free: bool)
    requires i < |bs|
    ensures forall b :: b in bs && b != bs[i] ==> b in SetFree(bs, i, free)
    ensures forall k :: InHeader(SetFree(bs, i, free), k) <==> InHeader(bs, k)
  {
    var r := SetFree(bs, i, free);
    forall j | 0 <= j < |bs| && j != i ensures bs[j] in r {
      assert r[j] == bs[j];
    }
    assert forall j :: 0 <= j < |bs| ==> r[j].addr == bs[j].addr;
  }

  /** Stores to one header spare every payload. */
  lemma HeaderStoreSpares(m: seq<byte>, m': seq<byte>, bs: seq<Block>, lo: nat, hi: nat, i: nat, except: nat)
    requires Tiles(bs, lo, hi) && hi <= |m| == |m'| && i < |bs|
    requires forall k :: 0 <= k < |m| && !(bs[i].addr <= k < bs[i].addr + HEADER) ==> m'[k] == m[k]
    ensures LiveKept(m, m', bs, bs, except, lo, hi)
    ensures SameBytes(m, m', bs[i].Payload(), bs[i].size)
  {
    forall k | 0 <= k < |m| && !InHeader(bs, k) ensures m'[k] == m[k] {
      if bs[i].addr <= k < bs[i].addr + HEADER { HeaderOf(bs, i, k); }
    }
    HeaderStoresSpare(m, m', bs, bs, lo, hi, except);
    HeaderStoresSpareStart(m, m', bs, bs, lo, hi, i);
  }

  /** A byte store inside a payload leaves every header word alone. */
  lemma PayloadStoreEncodes(w: WordMap, w': WordMap, bs: seq<Block>, lo: nat, hi: nat, b: Block, k: nat)
    requires Image(w, bs, lo, hi) && b in bs && b.Payload() <= k < b.End()
    requires forall a :: a in w && !(a <= k < a + WORD_BYTES) ==> a in w' && w'[a] == w[a]
    ensures Image(w', bs, lo, hi)
  {
    PayloadOffHeaders(bs, lo, hi, b, k);
    forall i | 0 <= i < |bs| ensures HeaderAt(w', bs, i) {
      assert HeaderAt(w, bs, i);
      assert !(bs[i].addr <= k < bs[i].addr + HEADER);
    }
  }

  /** Any stores inside a payload leave every header word alone. */
  lemma PayloadStoresEncode(w: WordMap, w': WordMap, bs: seq<Block>, lo: nat, hi: nat, b: Block)
    requires Image(w, bs, lo, hi) && b in bs
    requires forall a :: a in w && (a + WORD_BYTES <= b.Payload() || b.End() <= a) ==> a in w' && w'[a] == w[a]
    ensures Image(w', bs, lo, hi)
  {
    var j :| 0 <= j < |bs| && bs[j] == b;
    forall i | 0 <= i < |bs| ensures HeaderAt(w', bs, i) {
      assert HeaderAt(w, bs, i);
      if i < j { Ordered(bs, lo, hi, i, j); }
      if j < i { Ordered(bs, lo, hi, j, i); }
    }
  }

  lemma PayloadsApart(bs: seq<Block>, lo: nat, hi: nat, b: Block, c: Block)
    requires Tiles(bs, lo, hi) && b in bs && c in bs && b != c
    ensures b.End() <= c.addr || c.End() <= b.addr
  {
    var i :| 0 <= i < |bs| && bs[i] == b;
    var j :| 0 <= j < |bs| && bs[j] == c;
    if i < j { Ordered(bs, lo, hi, i, j); } else { Ordered(bs, lo, hi, j, i); }
  }

  /** Stores inside one payload spare every other block. */
  lemma PayloadStoresSpare(m: seq<byte>, m': seq<byte>, bs: seq<Block>, lo: nat, hi: nat, b: Block)
    requires Tiles(bs, lo, hi) && hi <= |m| == |m'| && b in bs
    requires forall k :: 0 <= k < |m| && !(b.Payload() <= k < b.End()) ==> m'[k] == m[k]
    ensures LiveKept(m, m', bs, bs, b.Payload(), lo, hi)
  {
    LiveKeptReflexive(m, bs, 0, lo, hi);
    var i :| 0 <= i < |bs| && bs[i] == b;
    Within(bs, lo, hi, i);
    forall c | c in bs && !c.free && c.Payload() != b.Payload() ensures SamePayload(m, m', c) {
      assert SamePayload(m, m, c);
      PayloadsApart(bs, lo, hi, b, c);
      forall k | c.Payload() <= k < c.End() ensures m'[k] == m[k] {
      }
    }
    forall k | 0 <= k < |m| && !(lo <= k < hi) ensures m'[k] == m[k] {
    }
  }

  /** The block an allocation returns is live, large enough, and was not live before. */
  lemma MallocFresh(bs: seq<Block>, lo: nat, hi: nat, size: u32)
    requires Tiles(bs, lo, hi) && MallocOutcome(bs, size).ptr != 0
    ensures var r := MallocOutcome(bs, size);
            && (forall b :: b in bs && !b.free ==> b.Payload() != r.ptr && b in r.blocks)
            && exists b :: b in r.blocks && !b.free && b.Payload() == r.ptr && size <= b.size
                           && lo <= b.addr && b.End() <= hi
  {
    var r, i, wanted := MallocOutcome(bs, size), FirstFit(bs, AlignUp(size), 0), AlignUp(size);
    forall b | b in bs && !b.free ensures b.Payload() != r.ptr && b in r.blocks {
      PayloadsApart(bs, lo, hi, b, bs[i]);
      SplitKeeps(bs, i, wanted);
      SetFreeKeeps(SplitAt(bs, i, wanted), i, false);
    }
    MallocTiles(bs, lo, hi, size);
    Within(r.blocks, lo, hi, i);
    assert r.blocks[i] in r.blocks;
  }

  /** Stores into a block that was not live before count as none. */
  lemma LiveKeptFresh(m0: seq<byte>, m1: seq<byte>, m2: seq<byte>, bs0: seq<Block>, bs1: seq<Block>, p: nat,
                      lo: nat, hi: nat)
    requires LiveKept(m0, m1, bs0, bs1, 0, lo, hi) && LiveKept(m1, m2, bs1, bs1, p, lo, hi)
    requires forall b :: b in bs0 && !b.free ==> b.Payload() != p
    ensures LiveKept(m0, m2, bs0, bs1, 0, lo, hi)
  {
    forall b | b in bs0 && !b.free && b.Payload() != 0 ensures b in bs1 && SamePayload(m0, m2, b) {
      assert SamePayload(m0, m1, b) && SamePayload(m1, m2, b);
    }
  }

  /** As LiveKept, with two exceptions. */
  ghost predicate LiveKeptBut(m: seq<byte>, m': seq<byte>, bs: seq<Block>, bs': seq<Block>, e0: nat, e1: nat,
                              lo: nat, hi: nat) {
    && |m| == |m'|
    && (forall b :: b in bs && !b.free && b.Payload() != e0 && b.Payload() != e1 ==> b in bs' && SamePayload(m, m', b))
    && forall k :: 0 <= k < |m| && !(lo <= k < hi) ==> m'[k] == m[k]
  }

  lemma LiveKeptTwo(m0: seq<byte>, m1: seq<byte>, m2: seq<byte>, bs: seq<Block>, bs': seq<Block>, e0: nat, e1: nat,
                    lo: nat, hi: nat)
    requires LiveKept(m0, m1, bs, bs, e0, lo, hi) && LiveKept(m1, m2, bs, bs', e1, lo, hi)
    ensures LiveKeptBut(m0, m2, bs, bs', e0, e1, lo, hi)
  {
    forall b | b in bs && !b.free && b.Payload() != e0 && b.Payload() != e1 ensures b in bs' && SamePayload(m0, m2, b) {
      assert SamePayload(m0, m1, b) && SamePayload(m1, m2, b);
    }
  }

  lemma LiveKeptFreshThen(m0: seq<byte>, m1: seq<byte>, m2: seq<byte>,
                          bs0: seq<Block>, bs1: seq<Block>, bs2: seq<Block>,
                          p: nat, e: nat, lo: nat, hi: nat)
    requires LiveKept(m0, m1, bs0, bs1, 0, lo, hi) && LiveKeptBut(m1, m2, bs1, bs2, p, e, lo, hi)
    requires forall b :: b in bs0 && !b.free ==> b.Payload() != p
    ensures LiveKept(m0, m2, bs0, bs2, e, lo, hi)
  {
    forall b | b in bs0 && !b.free && b.Payload() != e ensures b in bs2 && SamePayload(m0, m2, b) {
      assert b in bs1 && SamePayload(m0, m1, b);
      assert b in bs2 && SamePayload(m1, m2, b);
    }
  }
}

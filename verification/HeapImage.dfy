/**
 Block headers as they lie in memory: four words (size, magic, previous, next) at the block's own
 address, directly in front of its payload. Memory is seen here as its aligned words.
 */
module HeapImage {
  import opened Machine
  import opened HeapBlocks

  const MAGIC_ALLOC: u32 := 0xE2A1_10C1
  const MAGIC_FREE: u32 := 0xE2F4_EE01

  type WordMap = map<nat, u32>

  function Magic(free: bool): u32 {
    if free then MAGIC_FREE else MAGIC_ALLOC
  }

  function Prev(bs: seq<Block>, i: nat): nat
    requires i < |bs|
  {
    if i == 0 then 0 else bs[i-1].addr
  }

  function Next(bs: seq<Block>, i: nat): nat
    requires i < |bs|
  {
    if i + 1 == |bs| then 0 else bs[i+1].addr
  }

  ghost predicate Header(w: WordMap, a: nat, b: Block, prev: nat, next: nat) {
    && a in w && a + 4 in w && a + 8 in w && a + 12 in w
    && w[a] == b.size && w[a + 4] == Magic(b.free) && w[a + 8] == prev && w[a + 12] == next
  }

  ghost predicate HeaderAt(w: WordMap, bs: seq<Block>, i: nat)
    requires i < |bs|
  {
    Header(w, bs[i].addr, bs[i], Prev(bs, i), Next(bs, i))
  }

  ghost predicate Encodes(w: WordMap, bs: seq<Block>) {
    forall i :: 0 <= i < |bs| ==> HeaderAt(w, bs, i)
  }

  /** The region [lo, hi) is tiled by blocks whose headers are in memory. */
  ghost predicate Image(w: WordMap, bs: seq<Block>, lo: nat, hi: nat) {
    && 0 < lo && lo % 16 == 0
    && hi <= SIZE_GUARD
    && Tiles(bs, lo, hi)
    && Encodes(w, bs)
  }

  // ---------------------------------------------------------------- stores of each routine

  function SplitImage(w: WordMap, block: nat, split: nat, next: nat, wanted: u32, rest: u32): (r: WordMap)
    requires split < TWO32 && block < TWO32 && next < TWO32
  {
    var w1 := w[split := rest][split + 4 := MAGIC_FREE][split + 8 := block][split + 12 := next];
    var w2 := if next != 0 then w1[next + 8 := split] else w1;
    w2[block := wanted][block + 12 := split]
  }

  function MergeImage(w: WordMap, block: nat, size: u32, next: nat): (r: WordMap)
    requires block < TWO32 && next < TWO32
  {
    var w1 := w[block := size][block + 12 := next];
    if next != 0 then w1[next + 8 := block] else w1
  }

  function InitImage(w: WordMap, start: nat, size: u32): (r: WordMap) {
    w[start := size][start + 4 := MAGIC_FREE][start + 8 := 0][start + 12 := 0]
  }

  lemma InitEncodes(w: WordMap, lo: nat, hi: nat)
    requires 0 < lo && lo % 16 == 0 && hi % 16 == 0 && lo + HEADER + ALIGNMENT <= hi <= SIZE_GUARD
    ensures Image(InitImage(w, lo, hi - lo - HEADER), [Block(lo, hi - lo - HEADER, true)], lo, hi)
  {
    var bs := [Block(lo, hi - lo - HEADER, true)];
    assert hi - lo - HEADER == 16 * (hi / 16 - lo / 16 - 1);
    assert SizeAligned(bs, 0);
    assert HeaderAt(InitImage(w, lo, hi - lo - HEADER), bs, 0);
  }

  lemma SetMagicEncodes(w: WordMap, bs: seq<Block>, lo: nat, hi: nat, i: nat, free: bool)
    requires Image(w, bs, lo, hi) && i < |bs|
    ensures Image(w[bs[i].addr + 4 := Magic(free)], SetFree(bs, i, free), lo, hi)
  {
    SetFreeTiles(bs, lo, hi, i, free);
    var w', r := w[bs[i].addr + 4 := Magic(free)], SetFree(bs, i, free);
    forall k | 0 <= k < |r| ensures HeaderAt(w', r, k) {
      assert HeaderAt(w, bs, k);
      if k < i { Ordered(bs, lo, hi, k, i); }
      if i < k { Ordered(bs, lo, hi, i, k); }
    }
  }

  lemma SplitImageWords(w: WordMap, b: Block, split: nat, next: nat, wanted: u32, rest: u32, prev: nat)
    requires split < TWO32 && b.addr < TWO32 && next < TWO32
    requires b.addr + HEADER <= split && (next == 0 || split + HEADER <= next)
    requires Header(w, b.addr, b, prev, next)
    ensures var w' := SplitImage(w, b.addr, split, next, wanted, rest);
            && Header(w', b.addr, b.(size := wanted), prev, split)
            && Header(w', split, Block(split, rest, true), b.addr, next)
  {
  }

  /** Splitting leaves the headers alone that lie before the block or from its successor on, but for one back link. */
  lemma SplitImageFrame(w: WordMap, block: nat, split: nat, next: nat, wanted: u32, rest: u32,
                        c: Block, prev: nat, after: nat)
    requires split < TWO32 && block < TWO32 && next < TWO32
    requires block + HEADER <= split && (next == 0 || split + HEADER <= next)
    requires Header(w, c.addr, c, prev, after)
    requires c.End() <= block || (next != 0 && next <= c.addr)
    requires c.addr == next || c.End() <= block || next + HEADER <= c.addr
    ensures Header(SplitImage(w, block, split, next, wanted, rest), c.addr, c,
                   if next != 0 && c.addr == next then split else prev, after)
  {
  }

  /** The neighbours each block has after a split. */
  lemma SplitLinks(bs: seq<Block>, i: nat, wanted: nat, k: nat)
    requires i < |bs| && wanted + HEADER + ALIGNMENT <= bs[i].size
    requires k < |SplitAt(bs, i, wanted)|
    ensures var r := SplitAt(bs, i, wanted); var split := bs[i].Payload() + wanted;
            && |r| == |bs| + 1
            && r[k] == (if k < i then bs[k] else if k == i then bs[i].(size := wanted)
                        else if k == i + 1 then Block(split, bs[i].size - wanted - HEADER, true) else bs[k-1])
            && Prev(r, k) == (if k <= i then Prev(bs, k) else if k == i + 1 then bs[i].addr
                              else if k == i + 2 then split else Prev(bs, k - 1))
            && Next(r, k) == (if k < i then Next(bs, k) else if k == i then split else Next(bs, k - 1))
  {
  }

  lemma SplitEncodesAt(w: WordMap, bs: seq<Block>, lo: nat, hi: nat, i: nat,
                       block: u32, split: u32, next: u32, wanted: u32, rest: u32, k: nat)
    requires Image(w, bs, lo, hi) && i < |bs| && k < |SplitAt(bs, i, wanted)|
    requires wanted % 16 == 0 && wanted + HEADER + ALIGNMENT <= bs[i].size
    requires block == bs[i].addr && split == block + HEADER + wanted && next == Next(bs, i)
    requires rest == bs[i].size - wanted - HEADER
    requires next == 0 || split + HEADER <= next
    requires i + 1 < |bs| ==> bs[i+1].addr == next && next != 0
    ensures HeaderAt(SplitImage(w, block, split, next, wanted, rest), SplitAt(bs, i, wanted), k)
  {
    SplitLinks(bs, i, wanted, k);
    if k < i {
      assert HeaderAt(w, bs, k);
      Ordered(bs, lo, hi, k, i);
      SplitImageFrame(w, block, split, next, wanted, rest, bs[k], Prev(bs, k), Next(bs, k));
    } else if k > i + 1 {
      assert HeaderAt(w, bs, k - 1);
      if i + 1 < k - 1 { Ordered(bs, lo, hi, i + 1, k - 1); }
      SplitImageFrame(w, block, split, next, wanted, rest, bs[k-1], Prev(bs, k - 1), Next(bs, k - 1));
    } else {
      assert HeaderAt(w, bs, i);
      SplitImageWords(w, bs[i], split, next, wanted, rest, Prev(bs, i));
    }
  }

  lemma SplitEncodes(w: WordMap, bs: seq<Block>, lo: nat, hi: nat, i: nat,
                     block: u32, split: u32, next: u32, wanted: u32, rest: u32)
    requires Image(w, bs, lo, hi) && i < |bs|
    requires wanted % 16 == 0 && wanted + HEADER + ALIGNMENT <= bs[i].size
    requires block == bs[i].addr && split == block + HEADER + wanted && next == Next(bs, i)
    requires rest == bs[i].size - wanted - HEADER
    ensures Image(SplitImage(w, block, split, next, wanted, rest), SplitAt(bs, i, wanted), lo, hi)
  {
    Within(bs, lo, hi, i);
    SplitTiles(bs, lo, hi, i, wanted);
    if i + 1 < |bs| { Ordered(bs, lo, hi, i, i + 1); Within(bs, lo, hi, i + 1); }
    forall k | 0 <= k < |SplitAt(bs, i, wanted)|
      ensures HeaderAt(SplitImage(w, block, split, next, wanted, rest), SplitAt(bs, i, wanted), k)
    {
      SplitEncodesAt(w, bs, lo, hi, i, block, split, next, wanted, rest, k);
    }
  }

  lemma MergeImageWords(w: WordMap, b: Block, size: u32, old_next: nat, next: nat, prev: nat)
    requires b.addr < TWO32 && next < TWO32
    requires next == 0 || b.addr + HEADER <= next
    requires Header(w, b.addr, b, prev, old_next)
    ensures Header(MergeImage(w, b.addr, size, next), b.addr, b.(size := size), prev, next)
  {
  }

  lemma MergeImageFrame(w: WordMap, block: nat, size: u32, next: nat, c: Block, prev: nat, after: nat)
    requires block < TWO32 && next < TWO32 && (next == 0 || block + HEADER <= next)
    requires Header(w, c.addr, c, prev, after)
    requires c.End() <= block || (next != 0 && next <= c.addr)
    requires c.addr == next || c.End() <= block || next + HEADER <= c.addr
    ensures Header(MergeImage(w, block, size, next), c.addr, c,
                   if next != 0 && c.addr == next then block else prev, after)
  {
  }

  lemma MergeLinks(bs: seq<Block>, i: nat, k: nat)
    requires i < |bs| && CanMerge(bs, i) && k < |MergeAt(bs, i)|
    ensures var r := MergeAt(bs, i);
            && |r| == |bs| - 1
            && r[k] == (if k < i then bs[k] else if k == i then bs[i].(size := bs[i].size + HEADER + bs[i+1].size)
                        else bs[k+1])
            && Prev(r, k) == (if k <= i then Prev(bs, k) else if k == i + 1 then bs[i].addr else Prev(bs, k + 1))
            && Next(r, k) == (if k < i then Next(bs, k) else Next(bs, k + 1))
  {
  }

  lemma MergeEncodes(w: WordMap, bs: seq<Block>, lo: nat, hi: nat, i: nat, block: u32, size: u32, next: u32)
    requires Image(w, bs, lo, hi) && i < |bs| && CanMerge(bs, i)
    requires block == bs[i].addr && size == bs[i].size + HEADER + bs[i+1].size && next == Next(bs, i + 1)
    ensures Image(MergeImage(w, block, size, next), MergeAt(bs, i), lo, hi)
  {
    Within(bs, lo, hi, i + 1);
    MergeTiles(bs, lo, hi, i);
    if i + 2 < |bs| { Ordered(bs, lo, hi, i + 1, i + 2); Within(bs, lo, hi, i + 2); }
    assert Adjacent(bs, i + 1);
    assert HeaderAt(w, bs, i) && HeaderAt(w, bs, i + 1);
    var r := MergeAt(bs, i);
    var w' := MergeImage(w, block, size, next);
    MergeImageWords(w, bs[i], size, Next(bs, i), next, Prev(bs, i));
    forall k | 0 <= k < |r| ensures HeaderAt(w', r, k) {
      MergeLinks(bs, i, k);
      if k < i {
        assert HeaderAt(w, bs, k);
        Ordered(bs, lo, hi, k, i);
        MergeImageFrame(w, block, size, next, bs[k], Prev(bs, k), Next(bs, k));
      } else if k > i {
        assert HeaderAt(w, bs, k + 1);
        if i + 2 < k + 1 { Ordered(bs, lo, hi, i + 2, k + 1); }
        MergeImageFrame(w, block, size, next, bs[k+1], Prev(bs, k + 1), Next(bs, k + 1));
      }
    }
  }
}

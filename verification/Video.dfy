/** Video memory and texture uploads: a bump allocator, and the packets each upload sends. */
module Video {
  import opened Machine
  import opened GifStream
  import opened VramLayout

  const PSMCT32: nat := 0
  const PSMT8: nat := 0x13
  const PSMT4: nat := 0x14

  /** Image data in memory: a pointer, its alignment to 16 bytes, and what it points to. */
  datatype Pixels = NullPixels | Pixels(aligned: bool, qwords: seq<Qword>)

  /** A palette in memory, one 32-bit colour an entry. */
  datatype Palette = NullPalette | Palette(aligned: bool, colors: seq<u32>)

  function FormatPsm(f: Format): (psm: nat) {
    match f
    case Rgba32 => PSMCT32
    case Indexed8 => PSMT8
    case Indexed4 => PSMT4
  }

  function PaletteSize(f: Format): (n: nat) {
    match f
    case Rgba32 => 0
    case Indexed8 => 256
    case Indexed4 => 16
  }

  /** The source pointers lead to as much data as the caller's dimensions say. */
  predicate Supplied(f: Format, pixels: Pixels, palette: Palette, width: nat, height: nat) {
    && (pixels.Pixels? && GoodDimensions(width, height) ==> DataBytes(f, width, height) <= 16 * |pixels.qwords|)
    && (palette.Palette? ==> PaletteSize(f) <= |palette.colors|)
  }

  /** How an upload is answered. */
  function Status(f: Format, texture: bool, pixels: Pixels, palette: Palette, width: nat, height: nat, cursor: nat):
    (r: int)
  {
    if !texture || pixels.NullPixels? || (!f.Rgba32? && palette.NullPalette?) || !GoodDimensions(width, height) then -1
    else if !pixels.aligned || (!f.Rgba32? && !palette.aligned) then -2
    else if DataBytes(f, width, height) % 16 != 0 then -3
    else if NewCursor(f, width, height, cursor) > VRAM_BYTES then -4
    else 0
  }

  // ---------------------------------------------------------------- palettes

  /** The place of a palette entry in the order the hardware wants: bits 3 and 4 of the index change places. */
  function Csm1(i: nat): (r: nat)
    requires i < 256
    ensures r < 256
  {
    i / 32 * 32 + i / 8 % 2 * 16 + i / 16 % 2 * 8 + i % 8
  }

  lemma Csm1At(i: nat, a: nat, b: nat, c: nat, d: nat)
    requires i == 32 * a + 16 * b + 8 * c + d && a < 8 && b < 2 && c < 2 && d < 8
    ensures Csm1(i) == 32 * a + 16 * c + 8 * b + d
  {
    assert i / 8 == 4 * a + 2 * b + c && i / 16 == 2 * a + b && i / 32 == a;
  }

  lemma IndexBits(i: nat) returns (a: nat, b: nat, c: nat, d: nat)
    requires i < 256
    ensures i == 32 * a + 16 * b + 8 * c + d && a < 8 && b < 2 && c < 2 && d < 8
  {
    a := i / 32;
    var rest := i - 32 * a;
    b := if rest < 16 then 0 else 1;
    var low := rest - 16 * b;
    c := if low < 8 then 0 else 1;
    d := low - 8 * c;
  }

  /** The rearrangement is its own inverse, so every entry has its own place. */
  lemma Csm1Inverse(i: nat)
    requires i < 256
    ensures Csm1(Csm1(i)) == i
  {
    var a, b, c, d := IndexBits(i);
    Csm1At(i, a, b, c, d);
    Csm1At(Csm1(i), a, c, b, d);
  }

  /** Which of the four 32-bit words of a qword. */
  function Lane(q: Qword, n: nat): (word: nat)
    requires n < 4
  {
    if n == 0 then q.lo % 0x1_0000_0000 else if n == 1 then q.lo / 0x1_0000_0000
    else if n == 2 then q.hi % 0x1_0000_0000 else q.hi / 0x1_0000_0000
  }

  lemma QwordLanes(words: seq<u32>, p: nat)
    requires p < |words| && |words| % 4 == 0
    ensures p / 4 < |Qwords(words)| && Lane(Qwords(words)[p / 4], p % 4) == words[p]
  {
    var k := p / 4;
    assert p == 4 * k + p % 4;
    TwoWords(words[4*k], words[4*k+1]);
    TwoWords(words[4*k+2], words[4*k+3]);
  }

  lemma TwoWords(low: u32, high: u32)
    ensures (low as int + 0x1_0000_0000 * high as int) % 0x1_0000_0000 == low
    ensures (low as int + 0x1_0000_0000 * high as int) / 0x1_0000_0000 == high
  {
  }

  /**
   Where the GS finds palette entry i of an 8-bit texture, with the bits of i written out: at the word whose bits 3 and
   4 are exchanged.
   */
  lemma EntryPlace(palette: Palette, a: nat, b: nat, c: nat, d: nat)
    requires palette.Palette? && |palette.colors| >= 256 && a < 8 && b < 2 && c < 2 && d < 8
    ensures var i, p := 32 * a + 16 * b + 8 * c + d, 32 * a + 16 * c + 8 * b + d;
            && p / 4 < |ClutQwords(Indexed8, palette)|
            && Lane(ClutQwords(Indexed8, palette)[p / 4], p % 4) == palette.colors[i]
  {
    Csm1At(32 * a + 16 * c + 8 * b + d, a, c, b, d);
    QwordLanes(Arranged(palette.colors), 32 * a + 16 * c + 8 * b + d);
  }

  /** And of a 4-bit texture: at word i. */
  lemma PlainEntryPlace(palette: Palette, i: nat)
    requires palette.Palette? && |palette.colors| >= 16 && i < 16
    ensures i / 4 < |ClutQwords(Indexed4, palette)|
    ensures Lane(ClutQwords(Indexed4, palette)[i / 4], i % 4) == palette.colors[i]
  {
    QwordLanes(palette.colors[..16], i);
  }

  function Arranged(colors: seq<u32>): (stage: seq<u32>)
    requires |colors| >= 256
    ensures |stage| == 256
  {
    seq(256, k requires 0 <= k < 256 => colors[Csm1(k)])
  }

  /** Words in memory, seen as qwords. */
  function Qwords(words: seq<u32>): (qs: seq<Qword>)
    ensures |qs| == |words| / 4
  {
    seq(|words| / 4, k requires 0 <= k < |words| / 4 =>
      Qword(words[4*k] as int + 0x1_0000_0000 * words[4*k+1] as int,
            words[4*k+2] as int + 0x1_0000_0000 * words[4*k+3] as int))
  }

  // ---------------------------------------------------------------- what an upload sends

  function TextureTarget(f: Format, width: nat, height: nat, cursor: nat): (t: Target) {
    Target(TextureBase(cursor) / 256, AlignUp(width, PageWidth(f)) / 64, FormatPsm(f), width, height)
  }

  function ClutTarget(f: Format, width: nat, height: nat, cursor: nat): (t: Target) {
    var base := ClutBase(f, width, height, cursor) / 256;
    if f.Indexed8? then Target(base, 1, PSMCT32, 16, 16) else Target(base, 1, PSMCT32, 8, 2)
  }

  function ClutQwords(f: Format, palette: Palette): (qs: seq<Qword>)
    requires palette.Palette? && PaletteSize(f) <= |palette.colors|
  {
    match f
    case Rgba32 => []
    case Indexed8 => Qwords(Arranged(palette.colors))
    case Indexed4 => Qwords(palette.colors[..16])
  }

  function FlushPacket(): (qs: seq<Qword>) {
    [AdTag(1), Qword(0, ADDR_TEXFLUSH)]
  }

  /** Everything that a successful upload sends. */
  function Sent(f: Format, pixels: Pixels, palette: Palette, width: nat, height: nat, cursor: nat): (qs: seq<Qword>)
    requires pixels.Pixels? && (f.Rgba32? || palette.Palette?) && GoodDimensions(width, height)
    requires Supplied(f, pixels, palette, width, height)
  {
    Upload(TextureTarget(f, width, height, cursor), pixels.qwords[..DataBytes(f, width, height) / 16])
    + (if f.Rgba32? then [] else Upload(ClutTarget(f, width, height, cursor), ClutQwords(f, palette)))
    + FlushPacket()
  }

  /** The smallest exponent whose power of two is not below the value, up to 15. */
  method LogCeil(value: nat) returns (exponent: nat)
    ensures exponent <= 15 && if value <= 0x8000 then value <= Power(exponent) else exponent == 15
    ensures exponent > 0 ==> Power(exponent - 1) < value
  {
    var power: nat := 1;
    exponent := 0;
    assert Power(15) == 0x8000 by { assert Power(8) == 256 && Power(12) == 4096; }
    while power < value && exponent < 15
      invariant exponent <= 15 && power == Power(exponent) && (exponent > 0 ==> Power(exponent - 1) < value)
      decreases 15 - exponent
    {
      power := power * 2;
      exponent := exponent + 1;
    }
  }

  function Power(e: nat): (p: nat) {
    if e == 0 then 1 else 2 * Power(e - 1)
  }

  class Texture {
    var vramAddress: nat
    var clutAddress: nat
    var width: nat
    var height: nat
    var bufferWidth: nat
    var psm: nat
    var clutPsm: nat
    var widthLog2: nat
    var heightLog2: nat
    var valid: bool
    var indexed: bool

    constructor ()
      ensures !valid
    {
      vramAddress, clutAddress, width, height, bufferWidth := 0, 0, 0, 0, 0;
      psm, clutPsm, widthLog2, heightLog2, valid, indexed := 0, 0, 0, 0, false, false;
    }

    /** The record describes an image of this format, placed behind this cursor. */
    ghost predicate Records(f: Format, w: nat, h: nat, cursor: nat)
      reads this
    {
      && Target(vramAddress, bufferWidth, psm, width, height) == TextureTarget(f, w, h, cursor)
      && clutAddress == (if f.Rgba32? then 0 else ClutTarget(f, w, h, cursor).destination)
      && clutPsm == PSMCT32 && indexed == !f.Rgba32?
      && w <= Power(widthLog2) && (widthLog2 > 0 ==> Power(widthLog2 - 1) < w)
      && h <= Power(heightLog2) && (heightLog2 > 0 ==> Power(heightLog2 - 1) < h)
    }

    /** The recorded addresses, in their units, are the true ones. */
    lemma RecordsPlace(f: Format, w: nat, h: nat, cursor: nat)
      requires Records(f, w, h, cursor)
      ensures vramAddress * 256 == TextureBase(cursor) && bufferWidth * 64 == AlignUp(w, PageWidth(f))
      ensures !f.Rgba32? ==> clutAddress * 256 == ClutBase(f, w, h, cursor)
    {
      BlockAddress(TextureBase(cursor));
      BlockAddress(ClutBase(f, w, h, cursor));
      PaddedDivides(w, PageWidth(f));
    }

    method Describe(f: Format, w: nat, h: nat, cursor: nat)
      requires GoodDimensions(w, h)
      modifies this
      ensures Records(f, w, h, cursor) && !valid
    {
      var padded := AlignUp(w, PageWidth(f));
      vramAddress := TextureBase(cursor) / 256;
      clutAddress := if f.Rgba32? then 0 else ClutBase(f, w, h, cursor) / 256;
      width, height, bufferWidth := w, h, padded / 64;
      psm, clutPsm := FormatPsm(f), if f.Rgba32? then 0 else PSMCT32;
      widthLog2 := LogCeil(w);
      heightLog2 := LogCeil(h);
      valid, indexed := false, !f.Rgba32?;
    }
  }

  lemma BlockAddress(base: nat)
    requires base % 256 == 0
    ensures base / 256 * 256 == base
  {
  }

  lemma PaddedDivides(w: nat, alignment: nat)
    requires alignment == 64 || alignment == 128
    ensures AlignUp(w, alignment) / 64 * 64 == AlignUp(w, alignment)
  {
    if alignment == 128 {
      TwoUnits(AlignUp(w, alignment));
    }
  }

  lemma TwoUnits(r: nat)
    requires r % 128 == 0
    ensures r / 64 * 64 == r
  {
    var k := r / 128;
    assert r == 64 * (2 * k);
  }

  /** For every accepted size, whole pages hold the framebuffer, and two of them fit. */
  lemma FramebufferHolds(depth: Depth, width: nat, height: nat, columns: nat, rows: nat, pageHeight: nat)
    requires width == 256 || width == 320 || width == 512 || width == 640
    requires 0 < height <= 512 && !depth.OtherDepth? && pageHeight == (if depth.Fb32? then 32 else 64)
    requires columns == (width + 63) / 64 && rows == (height + pageHeight - 1) / pageHeight
    ensures 0 < Area(columns, rows) * PAGE_BYTES <= 1310720
    ensures Area(width, height) * BytesPerPixel(depth) <= Area(columns, rows) * PAGE_BYTES
  {
    assert columns * 64 == width;
    var held := if depth.Fb32? then 32 * rows else 64 * rows;
    assert height <= held <= 512;
    if columns == 4 {
      assert Area(columns, rows) == 4 * rows && Area(width, height) == 256 * height;
    } else if columns == 5 {
      assert Area(columns, rows) == 5 * rows && Area(width, height) == 320 * height;
    } else if columns == 8 {
      assert Area(columns, rows) == 8 * rows && Area(width, height) == 512 * height;
    } else {
      assert Area(columns, rows) == 10 * rows && Area(width, height) == 640 * height;
    }
  }

  /** The video state: framebuffer layout, allocator and transport. */
  class Gs {
    const dma: nat -> bool          // whether the n-th DMA send succeeds
    var dmaSends: nat
    var dmaAvailable: bool
    var fallbacks: nat
    var width: nat
    var height: nat
    var framebufferBytes: nat
    var framebufferBase: seq<nat>
    var start: nat
    var cursor: nat
    const clutStage: array<u32>
    ghost var regions: seq<Region>  // VRAM in use since the allocator was last reset
    ghost var stream: seq<Qword>    // everything sent to the GS

    ghost predicate Valid()
      reads this
    {
      && clutStage.Length == 256
      && framebufferBase == [0, framebufferBytes] && start == 2 * framebufferBytes
      && start <= cursor <= VRAM_BYTES && Stacked(regions, start, cursor)
    }

    constructor (dma: nat -> bool)
      ensures Valid() && regions == [] && stream == [] && start == 0 && this.dma == dma
    {
      this.dma := dma;
      dmaSends, dmaAvailable, fallbacks, width, height, framebufferBytes := 0, false, 0, 0, 0, 0;
      framebufferBase := [0, 0];
      start, cursor, regions, stream := 0, 0, [], [];
      clutStage := new u32[256];
    }

    /** No texture or palette overlaps either framebuffer or another of its kind, and none leaves video memory. */
    lemma RegionsApart(i: nat)
      requires Valid() && i < |regions|
      ensures !Overlap(regions[i], Region(0, framebufferBytes))
      ensures !Overlap(regions[i], Region(framebufferBytes, start))
      ensures regions[i].lo < regions[i].hi <= VRAM_BYTES
      ensures forall j :: 0 <= j < |regions| && j != i ==> !Overlap(regions[i], regions[j])
    {
      Separate(regions, start, cursor, i, Region(0, framebufferBytes));
      Separate(regions, start, cursor, i, Region(framebufferBytes, start));
    }

    /** Sends a packet by DMA, or through the FIFO once DMA has failed; either way it arrives once. */
    method Submit(packet: seq<Qword>) returns (result: int)
      modifies `dmaSends, `dmaAvailable, `fallbacks, `stream
      ensures result == 0 && stream == old(stream) + packet
      ensures dmaAvailable ==> old(dmaAvailable)
    {
      if dmaAvailable {
        var sent := dma(dmaSends);
        dmaSends := dmaSends + 1;
        if sent {
          stream := stream + packet;
          return 0;
        }
        fallbacks := fallbacks + 1;
        dmaAvailable := false;
      }
      stream := stream + packet;
      return 0;
    }

    method SendSetup(t: Target) returns (result: int)
      modifies `dmaSends, `dmaAvailable, `fallbacks, `stream
      ensures result == 0 && stream == old(stream) + ([AdTag(4)] + SetupWrites(t))
    {
      var setup := [
        AdTag(4),
        Qword(PackBitbltbuf(t.destination, t.width64, t.psm), ADDR_BITBLTBUF),
        Qword(PackTrxpos(0, 0), ADDR_TRXPOS),
        Qword(PackTrxreg(t.width, t.height), ADDR_TRXREG),
        Qword(0, ADDR_TRXDIR)];
      assert setup == [AdTag(4)] + SetupWrites(t);
      result := Submit(setup);
    }

    /** The image data behind a transfer, in chunks that fit the tag's count. */
    method SendImage(pixels: seq<Qword>, transferQwords: nat) returns (result: int)
      requires transferQwords <= |pixels|
      modifies `dmaSends, `dmaAvailable, `fallbacks, `stream
      ensures result == 0 && stream == old(stream) + Packets(ImageTag, pixels[..transferQwords])
    {
      var remaining: nat, offset: nat := transferQwords, 0;
      ghost var all := pixels[..transferQwords];
      assert all[0..] == all;
      while remaining != 0
        invariant offset + remaining == transferQwords
        invariant stream + Packets(ImageTag, all[offset..]) == old(stream) + Packets(ImageTag, all)
        decreases remaining
      {
        var chunk := if remaining > IMAGE_MAX_QWORDS then IMAGE_MAX_QWORDS else remaining;
        ghost var rest := all[offset..];
        NextPacket(ImageTag, stream, rest, chunk);
        var sent := Submit([ImageTag(chunk)]);
        if sent < 0 {
          return -3;
        }
        assert pixels[offset..offset + chunk] == rest[..chunk];
        sent := Submit(pixels[offset..offset + chunk]);
        if sent < 0 {
          return -4;
        }
        assert rest[chunk..] == all[offset + chunk..];
        offset := offset + chunk;
        remaining := remaining - chunk;
      }
      assert all[offset..] == [];
      return 0;
    }

    method UploadImage(t: Target, pixels: Pixels, transferBytes: nat) returns (result: int)
      requires pixels.Pixels? ==> transferBytes <= 16 * |pixels.qwords|
      modifies `dmaSends, `dmaAvailable, `fallbacks, `stream
      ensures result == if pixels.NullPixels? || transferBytes == 0 || transferBytes % 16 != 0 then -1 else 0
      ensures stream ==
              if result != 0 then old(stream) else old(stream) + Upload(t, pixels.qwords[..transferBytes / 16])
    {
      if pixels.NullPixels? || transferBytes == 0 || transferBytes % 16 != 0 {
        return -1;
      }
      ghost var before := stream;
      var sent := SendSetup(t);
      if sent < 0 {
        return -2;
      }
      result := SendImage(pixels.qwords, transferBytes / 16);
      Associate(before, [AdTag(4)] + SetupWrites(t), Packets(ImageTag, pixels.qwords[..transferBytes / 16]));
    }

    method FlushTextureCache() returns (result: int)
      modifies `dmaSends, `dmaAvailable, `fallbacks, `stream
      ensures result == 0 && stream == old(stream) + FlushPacket()
    {
      result := Submit([AdTag(1), Qword(0, ADDR_TEXFLUSH)]);
    }

    /** The palette of an indexed texture, and the cache flush behind it. */
    method SendPalette(t: Target, clut: seq<Qword>, bytes: nat) returns (result: int)
      requires 16 * |clut| == bytes && bytes > 0
      modifies `dmaSends, `dmaAvailable, `fallbacks, `stream
      ensures result == 0 && stream == old(stream) + Upload(t, clut) + FlushPacket()
    {
      assert clut[..bytes / 16] == clut;
      var sent := UploadImage(t, Pixels(true, clut), bytes);
      if sent < 0 {
        return -6;
      }
      sent := FlushTextureCache();
      if sent < 0 {
        return -7;
      }
      result := 0;
    }

    method PrepareClut(colors: seq<u32>)
      requires |colors| >= 256 && clutStage.Length == 256
      modifies clutStage
      ensures clutStage[..] == Arranged(colors)
    {
      var i := 0;
      while i < 256
        invariant i <= 256 && forall k :: 0 <= k < 256 && Csm1(k) < i ==> clutStage[k] == colors[Csm1(k)]
      {
        forall k | 0 <= k < 256 && Csm1(k) == i ensures k == Csm1(i) {
          Csm1Inverse(k);
        }
        Csm1Inverse(i);
        clutStage[Csm1(i)] := colors[i];
        i := i + 1;
      }
    }

    /** An 8-bit texture's palette, rearranged in the staging buffer. */
    method StagedClut(palette: Palette) returns (clut: seq<Qword>)
      requires palette.Palette? && PaletteSize(Indexed8) <= |palette.colors| && clutStage.Length == 256
      modifies clutStage
      ensures clut == ClutQwords(Indexed8, palette) && |clut| == 64
    {
      PrepareClut(palette.colors);
      clut := Qwords(clutStage[..]);
    }

    /** A 4-bit texture's palette goes up as it is. */
    static method PlainClut(palette: Palette) returns (clut: seq<Qword>)
      requires palette.Palette? && PaletteSize(Indexed4) <= |palette.colors|
      ensures clut == ClutQwords(Indexed4, palette) && |clut| == 4
    {
      clut := Qwords(palette.colors[..16]);
    }

    /** What an upload changes in the allocator and sends, by its result. */
    twostate predicate Uploaded(f: Format, texture: Texture?, pixels: Pixels, palette: Palette, w: nat, h: nat,
                                result: int)
      requires Supplied(f, pixels, palette, w, h)
      reads this, texture
    {
      && result == Status(f, texture != null, pixels, palette, w, h, old(cursor))
      && (result != 0 ==>
          && cursor == old(cursor) && regions == old(regions) && stream == old(stream)
          && (texture != null ==> unchanged(texture)))
      && (result == 0 ==>
          && texture.Records(f, w, h, old(cursor)) && texture.valid
          && cursor == NewCursor(f, w, h, old(cursor))
          && regions == old(regions) + NewRegions(f, w, h, old(cursor))
          && stream == old(stream) + Sent(f, pixels, palette, w, h, old(cursor)))
    }

    /** The checks of an RGBA upload: the error, or where the texture goes and how much it takes. */
    static method CheckRgba32(texture: bool, pixels: Pixels, w: nat, h: nat, cursor: nat)
      returns (result: int, transferBytes: nat, base: nat, allocation: nat)
      ensures result == Status(Rgba32, texture, pixels, NullPalette, w, h, cursor)
      ensures result == 0 ==> transferBytes == DataBytes(Rgba32, w, h) > 0
      ensures result == 0 ==> base + allocation == NewCursor(Rgba32, w, h, cursor)
    {
      transferBytes, base, allocation := 0, 0, 0;
      if !texture || pixels.NullPixels? || w == 0 || h == 0 || w > 1024 || h > 1024 {
        return -1, transferBytes, base, allocation;
      }
      if !pixels.aligned {
        return -2, transferBytes, base, allocation;
      }
      transferBytes := Area(w, h) * 4;
      if transferBytes % 16 != 0 {
        return -3, transferBytes, base, allocation;
      }
      var paddedWidth, paddedHeight := AlignUp(w, 64), AlignUp(h, 32);
      allocation := Area(paddedWidth, paddedHeight) * 4;
      base := AlignUp(cursor, PAGE_BYTES);
      if base > VRAM_BYTES || allocation > VRAM_BYTES - base {
        return -4, transferBytes, base, allocation;
      }
      StorageHolds(Rgba32, w, h);
      result := 0;
    }

    method UploadRgba32(texture: Texture?, pixels: Pixels, w: nat, h: nat) returns (result: int)
      requires Valid() && Supplied(Rgba32, pixels, NullPalette, w, h)
      modifies texture, `cursor, `regions, `dmaSends, `dmaAvailable, `fallbacks, `stream
      ensures Valid() && Uploaded(Rgba32, texture, pixels, NullPalette, w, h, result)
      ensures start == old(start) && framebufferBytes == old(framebufferBytes)
    {
      var transferBytes, base, allocation: nat;
      result, transferBytes, base, allocation := CheckRgba32(texture != null, pixels, w, h, cursor);
      if result < 0 {
        return;
      }
      ghost var at := cursor;
      StackGrows(regions, start, cursor, Rgba32, w, h);
      result := SendRgba32(texture, pixels, w, h, transferBytes);
      if result < 0 {
        return;
      }
      texture.valid := true;
      regions := regions + NewRegions(Rgba32, w, h, at);
      cursor := base + allocation;
    }

    /** The texture record and the image. */
    method SendTexture(texture: Texture, f: Format, pixels: Pixels, w: nat, h: nat, bytes: nat) returns (result: int)
      requires pixels.Pixels? && GoodDimensions(w, h) && 0 < bytes <= 16 * |pixels.qwords| && bytes % 16 == 0
      modifies texture, `dmaSends, `dmaAvailable, `fallbacks, `stream
      ensures result == 0 && texture.Records(f, w, h, cursor)
      ensures stream == old(stream) + Upload(TextureTarget(f, w, h, cursor), pixels.qwords[..bytes / 16])
    {
      texture.Describe(f, w, h, cursor);
      result := UploadImage(Target(texture.vramAddress, texture.bufferWidth, FormatPsm(f), w, h), pixels, bytes);
    }

    /** The texture record, the image and the cache flush. */
    method SendRgba32(texture: Texture, pixels: Pixels, w: nat, h: nat, transferBytes: nat) returns (result: int)
      requires pixels.Pixels? && GoodDimensions(w, h) && Supplied(Rgba32, pixels, NullPalette, w, h)
      requires transferBytes == DataBytes(Rgba32, w, h) && transferBytes % 16 == 0 && transferBytes > 0
      modifies texture, `dmaSends, `dmaAvailable, `fallbacks, `stream
      ensures result == 0 && texture.Records(Rgba32, w, h, cursor)
      ensures stream == old(stream) + Sent(Rgba32, pixels, NullPalette, w, h, cursor)
    {
      var sent := SendTexture(texture, Rgba32, pixels, w, h, transferBytes);
      if sent < 0 {
        return -5;
      }
      sent := FlushTextureCache();
      if sent < 0 {
        return -6;
      }
      result := 0;
    }

    /** The texture record, the image, the palette and the cache flush of an 8-bit texture. */
    method SendIndexed8(texture: Texture, indices: Pixels, palette: Palette, w: nat, h: nat, indexBytes: nat)
      returns (result: int)
      requires indices.Pixels? && palette.Palette? && GoodDimensions(w, h) && Supplied(Indexed8, indices, palette, w, h)
      requires indexBytes == DataBytes(Indexed8, w, h) && indexBytes % 16 == 0 && indexBytes > 0
      requires clutStage.Length == 256
      modifies texture, clutStage, `dmaSends, `dmaAvailable, `fallbacks, `stream
      ensures result == 0 && texture.Records(Indexed8, w, h, cursor)
      ensures stream == old(stream) + Sent(Indexed8, indices, palette, w, h, cursor)
    {
      ghost var before := stream;
      ghost var t, c := TextureTarget(Indexed8, w, h, cursor), ClutTarget(Indexed8, w, h, cursor);
      ghost var data := indices.qwords[..indexBytes / 16];
      var sent := SendTexture(texture, Indexed8, indices, w, h, indexBytes);
      if sent < 0 {
        return -5;
      }
      var clut := StagedClut(palette);
      result := SendPalette(Target(texture.clutAddress, 1, PSMCT32, 16, 16), clut, 1024);
      assert stream == before + Upload(t, data) + Upload(c, clut) + FlushPacket();
      AllSent(before, Indexed8, indices, palette, w, h, cursor, data, clut);
    }

    /** The same for a 4-bit texture, whose palette goes up as it is. */
    method SendIndexed4(texture: Texture, packed: Pixels, palette: Palette, w: nat, h: nat, packedBytes: nat)
      returns (result: int)
      requires packed.Pixels? && palette.Palette? && GoodDimensions(w, h) && Supplied(Indexed4, packed, palette, w, h)
      requires packedBytes == DataBytes(Indexed4, w, h) && packedBytes % 16 == 0 && packedBytes > 0
      modifies texture, `dmaSends, `dmaAvailable, `fallbacks, `stream
      ensures result == 0 && texture.Records(Indexed4, w, h, cursor)
      ensures stream == old(stream) + Sent(Indexed4, packed, palette, w, h, cursor)
    {
      ghost var before := stream;
      ghost var t, c := TextureTarget(Indexed4, w, h, cursor), ClutTarget(Indexed4, w, h, cursor);
      ghost var data := packed.qwords[..packedBytes / 16];
      var sent := SendTexture(texture, Indexed4, packed, w, h, packedBytes);
      if sent < 0 {
        return -5;
      }
      var clut := PlainClut(palette);
      result := SendPalette(Target(texture.clutAddress, 1, PSMCT32, 8, 2), clut, 64);
      assert stream == before + Upload(t, data) + Upload(c, clut) + FlushPacket();
      AllSent(before, Indexed4, packed, palette, w, h, cursor, data, clut);
    }

    /** The checks of an 8-bit upload: the error, or how much there is to send and where the allocation ends. */
    static method CheckIndexed8(texture: bool, indices: Pixels, palette: Palette, w: nat, h: nat, cursor: nat)
      returns (result: int, bytes: nat, endCursor: nat)
      ensures result == Status(Indexed8, texture, indices, palette, w, h, cursor)
      ensures result == 0 ==> bytes == DataBytes(Indexed8, w, h) > 0 && endCursor == NewCursor(Indexed8, w, h, cursor)
    {
      bytes, endCursor := 0, 0;
      if !texture || indices.NullPixels? || palette.NullPalette? || w == 0 || h == 0 || w > 1024 || h > 1024 {
        return -1, bytes, endCursor;
      }
      if !indices.aligned || !palette.aligned {
        return -2, bytes, endCursor;
      }
      bytes := Area(w, h);
      if bytes % 16 != 0 {
        return -3, bytes, endCursor;
      }
      var paddedWidth, paddedHeight := AlignUp(w, 128), AlignUp(h, 64);
      var textureBytes := Area(paddedWidth, paddedHeight);
      var textureCursor := AlignUp(cursor, PAGE_BYTES);
      var clutCursor := AlignUp(textureCursor + textureBytes, 256);
      endCursor := clutCursor + 1024;
      if endCursor > VRAM_BYTES {
        return -4, bytes, endCursor;
      }
      StorageHolds(Indexed8, w, h);
      result := 0;
    }

    method UploadIndexed8(texture: Texture?, indices: Pixels, palette: Palette, w: nat, h: nat) returns (result: int)
      requires Valid() && Supplied(Indexed8, indices, palette, w, h)
      modifies texture, clutStage, `cursor, `regions, `dmaSends, `dmaAvailable, `fallbacks, `stream
      ensures Valid() && Uploaded(Indexed8, texture, indices, palette, w, h, result)
      ensures start == old(start) && framebufferBytes == old(framebufferBytes)
    {
      var bytes, endCursor: nat;
      result, bytes, endCursor := CheckIndexed8(texture != null, indices, palette, w, h, cursor);
      if result < 0 {
        return;
      }
      ghost var at := cursor;
      StackGrows(regions, start, cursor, Indexed8, w, h);
      result := SendIndexed8(texture, indices, palette, w, h, bytes);
      if result < 0 {
        return;
      }
      texture.valid := true;
      regions := regions + NewRegions(Indexed8, w, h, at);
      cursor := endCursor;
    }

    lemma AllSent(before: seq<Qword>, f: Format, pixels: Pixels, palette: Palette, w: nat, h: nat, at: nat,
                  data: seq<Qword>, clut: seq<Qword>)
      requires pixels.Pixels? && palette.Palette? && !f.Rgba32?
      requires GoodDimensions(w, h) && Supplied(f, pixels, palette, w, h)
      requires clut == ClutQwords(f, palette) && data == pixels.qwords[..DataBytes(f, w, h) / 16]
      ensures before + Upload(TextureTarget(f, w, h, at), data) + Upload(ClutTarget(f, w, h, at), clut) + FlushPacket()
           == before + Sent(f, pixels, palette, w, h, at)
    {
      Regroup(before, Upload(TextureTarget(f, w, h, at), data), Upload(ClutTarget(f, w, h, at), clut), FlushPacket());
    }

    /** The checks of a 4-bit upload: the error, or how much there is to send and where the allocation ends. */
    static method CheckIndexed4(texture: bool, packed: Pixels, palette: Palette, w: nat, h: nat, cursor: nat)
      returns (result: int, bytes: nat, endCursor: nat)
      ensures result == Status(Indexed4, texture, packed, palette, w, h, cursor)
      ensures result == 0 ==> bytes == DataBytes(Indexed4, w, h) > 0 && endCursor == NewCursor(Indexed4, w, h, cursor)
    {
      bytes, endCursor := 0, 0;
      if !texture || packed.NullPixels? || palette.NullPalette? || w == 0 || h == 0 || w > 1024 || h > 1024 {
        return -1, bytes, endCursor;
      }
      if !packed.aligned || !palette.aligned {
        return -2, bytes, endCursor;
      }
      bytes := (Area(w, h) + 1) / 2;
      if bytes % 16 != 0 {
        return -3, bytes, endCursor;
      }
      var paddedWidth, paddedHeight := AlignUp(w, 128), AlignUp(h, 128);
      var textureBytes := Area(paddedWidth, paddedHeight) / 2;
      var textureCursor := AlignUp(cursor, PAGE_BYTES);
      var clutCursor := AlignUp(textureCursor + textureBytes, 256);
      endCursor := clutCursor + 256;
      if endCursor > VRAM_BYTES {
        return -4, bytes, endCursor;
      }
      StorageHolds(Indexed4, w, h);
      result := 0;
    }

    method UploadIndexed4(texture: Texture?, packed: Pixels, palette: Palette, w: nat, h: nat) returns (result: int)
      requires Valid() && Supplied(Indexed4, packed, palette, w, h)
      modifies texture, `cursor, `regions, `dmaSends, `dmaAvailable, `fallbacks, `stream
      ensures Valid() && Uploaded(Indexed4, texture, packed, palette, w, h, result)
      ensures start == old(start) && framebufferBytes == old(framebufferBytes)
    {
      var bytes, endCursor: nat;
      result, bytes, endCursor := CheckIndexed4(texture != null, packed, palette, w, h, cursor);
      if result < 0 {
        return;
      }
      ghost var at := cursor;
      StackGrows(regions, start, cursor, Indexed4, w, h);
      result := SendIndexed4(texture, packed, palette, w, h, bytes);
      if result < 0 {
        return;
      }
      texture.valid := true;
      regions := regions + NewRegions(Indexed4, w, h, at);
      cursor := endCursor;
    }

    /**
     The framebuffer layout: two page-aligned framebuffers from address 0, and textures behind them. The
     display registers are programmed afterwards and are not part of this model.
     */
    method Init(config: Config, detected: Detection, dmaReady: bool) returns (result: int)
      requires Valid()
      modifies `width, `height, `framebufferBytes, `framebufferBase, `start, `cursor, `regions
      modifies `fallbacks, `dmaAvailable
      ensures Valid()
      ensures result == InitStatus(config, detected) && (result == 0 <==> Accepts(config, detected))
      ensures -4 <= result <= -1 ==> width == old(width) && height == old(height)
      ensures result != 0 ==>
              framebufferBytes == old(framebufferBytes) && cursor == old(cursor) && regions == old(regions)
      ensures result == 0 ==> framebufferBytes > 0 && cursor == start && regions == [] && framebufferBytes % 8192 == 0
      ensures result == 0 ==> Area(width, height) * BytesPerPixel(config.depth) <= framebufferBytes
      ensures result == 0 ==> WholePages(framebufferBytes, width, height, 64, if config.depth.Fb32? then 32 else 64)
      ensures result == 0 ==> cursor == 2 * framebufferBytes <= 2621440
      ensures result == 0 ==> width == Or(config.width, 640) && dmaAvailable == dmaReady
                              && height == Or(config.height, DefaultHeight(Effective(config.standard, detected)))
      ensures stream == old(stream)
    {
      var standard;
      result, standard := CheckMode(config, detected);
      if result < 0 {
        return;
      }
      var pageHeight := if config.depth.Fb32? then 32 else 64;
      var defaultHeight := if standard.Pal? then 512 else 448;
      width := if config.width != 0 then config.width else 640;
      height := if config.height != 0 then config.height else defaultHeight;
      var bytes: nat;
      result, bytes := PlanFramebuffers(config.depth, width, height, defaultHeight, pageHeight);
      if result < 0 {
        return;
      }
      Install(bytes, dmaReady);
    }

    method Install(bytes: nat, dmaReady: bool)
      requires clutStage.Length == 256 && bytes <= VRAM_BYTES / 2
      modifies `framebufferBytes, `framebufferBase, `start, `cursor, `regions, `fallbacks, `dmaAvailable
      ensures Valid() && framebufferBytes == bytes && cursor == start && regions == [] && dmaAvailable == dmaReady
    {
      framebufferBytes := bytes;
      framebufferBase := [0, bytes];
      start := bytes * 2;
      cursor := start;
      regions := [];
      fallbacks := 0;
      dmaAvailable := dmaReady;
    }

    /** The checks of the display mode. */
    static method CheckMode(config: Config, detected: Detection) returns (result: int, standard: Standard)
      ensures result == ModeStatus(config, detected)
      ensures result == 0 ==> standard == Effective(config.standard, detected) && (standard.Ntsc? || standard.Pal?)
    {
      standard := OtherStandard;
      if config.NullConfig? {
        return -1, standard;
      }
      standard := config.standard;
      if standard.Auto? {
        standard := if detected.DetectedPal? then Pal else Ntsc;
      }
      if !standard.Ntsc? && !standard.Pal? {
        return -2, standard;
      }
      if !config.interlaced || !config.fieldMode {
        return -3, standard;
      }
      if config.depth.OtherDepth? {
        return -4, standard;
      }
      result := 0;
    }

    /** The size checks, and the bytes of one framebuffer in whole pages. */
    static method PlanFramebuffers(depth: Depth, width: nat, height: nat, defaultHeight: nat, pageHeight: nat)
      returns (result: int, bytes: nat)
      requires (defaultHeight == 448 || defaultHeight == 512) && !depth.OtherDepth?
      requires pageHeight == (if depth.Fb32? then 32 else 64)
      ensures result == (if && (width == 256 || width == 320 || width == 512 || width == 640)
                            && (height == defaultHeight || height * 2 == defaultHeight || height * 4 == defaultHeight)
                         then 0 else -5)
      ensures result == 0 ==>
                && 0 < bytes <= 1310720 && bytes % 8192 == 0
                && Area(width, height) * BytesPerPixel(depth) <= bytes
                && WholePages(bytes, width, height, 64, if depth.Fb32? then 32 else 64)
    {
      bytes := 0;
      WidthChecks(width);
      HeightChecks(defaultHeight, height);
      if width < 160 || width > 1024 || width % 64 != 0 || height == 0 || height > defaultHeight
         || 2560 % width != 0 || defaultHeight % height != 0 {
        return -5, bytes;
      }
      var horizontalScale, verticalScale := 2560 / width, defaultHeight / height;
      if horizontalScale == 0 || horizontalScale > 16 || verticalScale == 0 || verticalScale > 4 {
        return -5, bytes;
      }
      var pageColumns := (width + 63) / 64;
      var pageRows := (height + pageHeight - 1) / pageHeight;
      bytes := Area(pageColumns, pageRows) * PAGE_BYTES;
      FramebufferHolds(depth, width, height, pageColumns, pageRows, pageHeight);
      assert PageRectangle(bytes, width, height, 64, if depth.Fb32? then 32 else 64, pageColumns, pageRows);
      if bytes == 0 || bytes * 2 > VRAM_BYTES {
        return -6, bytes;
      }
      result := 0;
    }

    method ResetTextureAllocator()
      requires Valid()
      modifies `cursor, `regions
      ensures Valid() && cursor == start && regions == []
    {
      cursor := start;
      regions := [];
    }

    method TextureVramFree() returns (free: nat)
      requires Valid()
      ensures free == VRAM_BYTES - cursor
    {
      if cursor >= VRAM_BYTES {
        return 0;
      }
      return VRAM_BYTES - cursor;
    }
  }

  // ---------------------------------------------------------------- what the GS makes of it

  /** The register writes and image data of one transfer. */
  function Transfer(t: Target, data: seq<Qword>): (es: seq<Event>) {
    Writes(SetupWrites(t)) + Images(data)
  }

  lemma OneWriteReads(decode: Qword -> Header, tag: Qword, body: Qword)
    requires decode(tag) == Header(1, RegisterWrites)
    ensures Read(decode, [tag, body]) == Events([Write(body.hi, body.lo)])
  {
    ReadPacket(decode, tag, [body], []);
    assert [tag, body] == [tag] + [body] + [];
    assert Writes([body]) + [] == [Write(body.hi, body.lo)];
  }

  lemma FlushReads()
    ensures Read(Decode, FlushPacket()) == Events([Write(ADDR_TEXFLUSH, 0)])
  {
    WritesDecode(1);
    OneWriteReads(Decode, AdTag(1), Qword(0, ADDR_TEXFLUSH));
  }

  /** All that a successful upload sends, read back by the GS: image, palette if there is one, cache flush. */
  lemma SentReads(f: Format, pixels: Pixels, palette: Palette, w: nat, h: nat, cursor: nat)
    requires pixels.Pixels? && (f.Rgba32? || palette.Palette?)
    requires GoodDimensions(w, h) && Supplied(f, pixels, palette, w, h)
    ensures Read(Decode, Sent(f, pixels, palette, w, h, cursor)) == Events(
              Transfer(TextureTarget(f, w, h, cursor), pixels.qwords[..DataBytes(f, w, h) / 16])
              + (if f.Rgba32? then [] else Transfer(ClutTarget(f, w, h, cursor), ClutQwords(f, palette)))
              + [Write(ADDR_TEXFLUSH, 0)])
  {
    var t, data := TextureTarget(f, w, h, cursor), pixels.qwords[..DataBytes(f, w, h) / 16];
    UploadReads(t, data);
    FlushReads();
    if f.Rgba32? {
      ReadAppend(Decode, Upload(t, data), FlushPacket());
      assert Upload(t, data) + [] == Upload(t, data) && Transfer(t, data) + [] == Transfer(t, data);
    } else {
      var c, clut := ClutTarget(f, w, h, cursor), ClutQwords(f, palette);
      UploadReads(c, clut);
      ReadAppend(Decode, Upload(t, data), Upload(c, clut));
      ReadAppend(Decode, Upload(t, data) + Upload(c, clut), FlushPacket());
    }
  }

  /** The four register writes of a transfer: place, offset 0, size, and direction to video memory. */
  lemma SetupReads(t: Target)
    ensures Writes(SetupWrites(t)) == [Write(0x50, PackBitbltbuf(t.destination, t.width64, t.psm)), Write(0x51, 0),
                                       Write(0x52, PackTrxreg(t.width, t.height)), Write(0x53, 0)]
    ensures Writes([Qword(0, ADDR_TEXFLUSH)]) == [Write(0x3F, 0)]
  {
  }

  /** What each answer of an upload means: the first thing that is wrong. */
  lemma StatusMeans(f: Format, texture: bool, pixels: Pixels, palette: Palette, w: nat, h: nat, cursor: nat)
    ensures var r := Status(f, texture, pixels, palette, w, h, cursor);
            var given := && texture && pixels.Pixels? && (!f.Rgba32? ==> palette.Palette?)
                         && 1 <= w <= 1024 && 1 <= h <= 1024;
            var aligned := (pixels.Pixels? ==> pixels.aligned) && (!f.Rgba32? && palette.Palette? ==> palette.aligned);
            var bits := (if f.Rgba32? then 32 else if f.Indexed8? then 8 else 4) * Area(w, h);
            && (r == -1 <==> !given)
            && (r == -2 <==> given && !aligned)
            && (r == -3 <==> given && aligned && (bits + 7) / 8 % 16 != 0)
            && (r == -4 <==> given && aligned && (bits + 7) / 8 % 16 == 0
                             && NewRegions(f, w, h, cursor)[|NewRegions(f, w, h, cursor)| - 1].hi > 4194304)
            && -4 <= r <= 0
  {
    RegionsExactly(f, w, h, cursor);
    StorageExactly(f, w, h);
    var n := Area(w, h);
    assert (32 * n + 7) / 8 == 4 * n && (8 * n + 7) / 8 == n && (4 * n + 7) / 8 == (n + 1) / 2;
  }

  /** And the registers name the true places: what the GS decodes is what was allocated, and the size as given. */
  lemma TargetsAreTrue(f: Format, texture: bool, pixels: Pixels, palette: Palette, w: nat, h: nat, cursor: nat)
    requires Status(f, texture, pixels, palette, w, h, cursor) == 0
    ensures var t := TextureTarget(f, w, h, cursor);
            var data := PackBitbltbuf(t.destination, t.width64, t.psm);
            && (data / 0x1_0000_0000) % 0x4000 * 256 == TextureBase(cursor)
            && (data / 0x1_0000_0000_0000) % 0x40 * 64 == AlignUp(w, PageWidth(f))
            && data / 0x100_0000_0000_0000 == (if f.Rgba32? then 0 else if f.Indexed8? then 0x13 else 0x14)
            && PackTrxreg(t.width, t.height) % 0x1000 == w
            && PackTrxreg(t.width, t.height) / 0x1_0000_0000 == h
  {
    var t := TextureTarget(f, w, h, cursor);
    StorageHolds(f, w, h);
    PaddedSize(w, PageWidth(f));
    PaddedDivides(w, PageWidth(f));
    BlockAddress(TextureBase(cursor));
    DestinationFields(t.destination, t.width64, t.psm);
    SizeFields(w, h);
  }

  /** A palette goes up as a 32-bit image of 16 by 16 or 8 by 2 pixels, one page wide in the buffer. */
  lemma ClutShape(f: Format, w: nat, h: nat, cursor: nat)
    requires !f.Rgba32? && ClutBase(f, w, h, cursor) < VRAM_BYTES
    ensures var t := ClutTarget(f, w, h, cursor);
            var data, size := PackBitbltbuf(t.destination, t.width64, t.psm), PackTrxreg(t.width, t.height);
            && (data / 0x1_0000_0000_0000) % 0x40 == 1 && data / 0x100_0000_0000_0000 == 0
            && size % 0x1000 == (if f.Indexed8? then 16 else 8)
            && size / 0x1_0000_0000 == (if f.Indexed8? then 16 else 2)
  {
    var t := ClutTarget(f, w, h, cursor);
    BlockAddress(ClutBase(f, w, h, cursor));
    DestinationFields(t.destination, t.width64, t.psm);
    SizeFields(t.width, t.height);
  }

  lemma ClutPlace(f: Format, w: nat, h: nat, cursor: nat)
    requires !f.Rgba32? && ClutBase(f, w, h, cursor) < VRAM_BYTES
    ensures var t := ClutTarget(f, w, h, cursor);
            (PackBitbltbuf(t.destination, t.width64, t.psm) / 0x1_0000_0000) % 0x4000 * 256 == ClutBase(f, w, h, cursor)
  {
    var t := ClutTarget(f, w, h, cursor);
    BlockAddress(ClutBase(f, w, h, cursor));
    DestinationFields(t.destination, t.width64, t.psm);
  }

  lemma ClutSize(f: Format, width: nat, height: nat)
    requires !f.Rgba32? && (width, height) == if f.Indexed8? then (16, 16) else (8, 2)
    ensures var size := PackTrxreg(width, height);
            Area(size % 0x1000, size / 0x1_0000_0000) == PaletteSize(f)
  {
    SizeFields(width, height);
    assert Area(width, height) == PaletteSize(f);
  }

  lemma ClutAccepted(f: Format, pixels: Pixels, palette: Palette, w: nat, h: nat, cursor: nat)
    requires Status(f, true, pixels, palette, w, h, cursor) == 0 && !f.Rgba32?
    ensures palette.Palette? && ClutBase(f, w, h, cursor) < VRAM_BYTES
  {
  }

  lemma ClutRoom(f: Format, palette: Palette)
    requires !f.Rgba32? && palette.Palette? && PaletteSize(f) <= |palette.colors|
    ensures PaletteSize(f) == 4 * |ClutQwords(f, palette)| && 16 * |ClutQwords(f, palette)| <= ClutBytes(f)
  {
  }

  /** The same for a palette: the decoded rectangle holds exactly the entries sent, inside the room set aside. */
  lemma ClutTargetIsTrue(f: Format, pixels: Pixels, palette: Palette, w: nat, h: nat, cursor: nat)
    requires Status(f, true, pixels, palette, w, h, cursor) == 0 && !f.Rgba32? && Supplied(f, pixels, palette, w, h)
    ensures var t := ClutTarget(f, w, h, cursor);
            var size := PackTrxreg(t.width, t.height);
            && (PackBitbltbuf(t.destination, t.width64, t.psm) / 0x1_0000_0000) % 0x4000 * 256
               == ClutBase(f, w, h, cursor)
            && Area(size % 0x1000, size / 0x1_0000_0000) == PaletteSize(f) == 4 * |ClutQwords(f, palette)|
            && 16 * |ClutQwords(f, palette)| <= ClutBytes(f)
  {
    var t := ClutTarget(f, w, h, cursor);
    ClutAccepted(f, pixels, palette, w, h, cursor);
    ClutPlace(f, w, h, cursor);
    ClutSize(f, t.width, t.height);
    ClutRoom(f, palette);
  }
}

/** Where framebuffers and textures go in the four megabytes of video memory. */
module VramLayout {
  import opened Machine

  const VRAM_BYTES: u32 := 4194304
  const PAGE_BYTES: u32 := 8192

  // ---------------------------------------------------------------- alignment

  predicate IsAlignment(a: nat) {
    a == 32 || a == 64 || a == 128 || a == 256 || a == 8192
  }

  predicate Aligned(value: nat, alignment: nat)
    requires IsAlignment(alignment)
  {
    if alignment == 32 then value % 32 == 0 else if alignment == 64 then value % 64 == 0
    else if alignment == 128 then value % 128 == 0 else if alignment == 256 then value % 256 == 0
    else value % 8192 == 0
  }

  function Up32(value: nat): (r: nat)
    ensures r % 32 == 0 && value <= r < value + 32
  {
    (value + 31) / 32 * 32
  }

  function Up64(value: nat): (r: nat)
    ensures r % 64 == 0 && value <= r < value + 64
  {
    (value + 63) / 64 * 64
  }

  function Up128(value: nat): (r: nat)
    ensures r % 128 == 0 && value <= r < value + 128
  {
    (value + 127) / 128 * 128
  }

  function Up256(value: nat): (r: nat)
    ensures r % 256 == 0 && value <= r < value + 256
  {
    (value + 255) / 256 * 256
  }

  function Up8192(value: nat): (r: nat)
    ensures r % 8192 == 0 && value <= r < value + 8192
  {
    (value + 8191) / 8192 * 8192
  }

  /** The next multiple of the alignment: the least one that is not below the value. */
  function AlignUp(value: nat, alignment: nat): (r: nat)
    requires IsAlignment(alignment)
    ensures Aligned(r, alignment) && value <= r < value + alignment
  {
    if alignment == 32 then Up32(value) else if alignment == 64 then Up64(value)
    else if alignment == 128 then Up128(value) else if alignment == 256 then Up256(value)
    else Up8192(value)
  }

  // ---------------------------------------------------------------- framebuffers

  datatype Standard = Auto | Ntsc | Pal | OtherStandard
  datatype Depth = Fb32 | Fb16 | OtherDepth
  datatype Detection = DetectFailed | DetectedPal | DetectedNtsc

  /** The caller's request; a width or height of 0 asks for the default. */
  datatype Config = NullConfig
    | Config(standard: Standard, interlaced: bool, fieldMode: bool, depth: Depth, width: nat, height: nat)

  /** The standard in effect: automatic detection falls back to NTSC. */
  function Effective(standard: Standard, detected: Detection): (r: Standard) {
    if standard.Auto? then (if detected.DetectedPal? then Pal else Ntsc) else standard
  }

  function DefaultHeight(standard: Standard): (h: nat) {
    if standard.Pal? then 512 else 448
  }

  function BytesPerPixel(depth: Depth): (n: nat) {
    if depth.Fb32? then 4 else 2
  }

  function Or(asked: nat, default_value: nat): (r: nat) {
    if asked != 0 then asked else default_value
  }

  /** The sizes that initialisation accepts: a width that divides 2560, a full, half or quarter height. */
  predicate GoodSize(standard: Standard, width: nat, height: nat) {
    && (width == 256 || width == 320 || width == 512 || width == 640)
    && var full := DefaultHeight(standard); (height == full || height * 2 == full || height * 4 == full)
  }

  /** How the display mode is answered: the first check that fails. */
  function ModeStatus(config: Config, detected: Detection): (r: int) {
    if config.NullConfig? then -1
    else if Effective(config.standard, detected).OtherStandard? then -2
    else if !config.interlaced || !config.fieldMode then -3
    else if config.depth.OtherDepth? then -4
    else 0
  }

  /** How initialisation is answered; for an accepted size the framebuffers fit, so that there is no -6. */
  function InitStatus(config: Config, detected: Detection): (r: int) {
    if ModeStatus(config, detected) != 0 then ModeStatus(config, detected)
    else
      var standard := Effective(config.standard, detected);
      if GoodSize(standard, Or(config.width, 640), Or(config.height, DefaultHeight(standard))) then 0 else -5
  }

  /** What each answer means, and which sizes are in effect: PAL if asked for or detected, defaults where 0 is asked. */
  lemma InitMeans(config: Config, detected: Detection)
    requires config.Config?
    ensures var r := InitStatus(config, detected);
            var pal := config.standard.Pal? || (config.standard.Auto? && detected.DetectedPal?);
            var ntsc := config.standard.Ntsc? || (config.standard.Auto? && !detected.DetectedPal?);
            var mode := config.interlaced && config.fieldMode;
            var width := if config.width != 0 then config.width else 640;
            var full := if pal then 512 else 448;
            var height := if config.height != 0 then config.height else full;
            var size := && (width == 256 || width == 320 || width == 512 || width == 640)
                        && (height == full || height * 2 == full || height * 4 == full);
            && InitStatus(NullConfig, detected) == -1
            && (r == -2 <==> !pal && !ntsc)
            && (r == -3 <==> (pal || ntsc) && !mode)
            && (r == -4 <==> (pal || ntsc) && mode && config.depth.OtherDepth?)
            && (r == -5 <==> (pal || ntsc) && mode && !config.depth.OtherDepth? && !size)
            && -5 <= r <= 0 && r != -1
            && Or(config.width, 640) == width
            && (pal || ntsc ==> Or(config.height, DefaultHeight(Effective(config.standard, detected))) == height)
  {
  }

  predicate Accepts(config: Config, detected: Detection) {
    && config.Config?
    && var standard := Effective(config.standard, detected);
       && (standard.Ntsc? || standard.Pal?) && config.interlaced && config.fieldMode && !config.depth.OtherDepth?
       && GoodSize(standard, Or(config.width, 640), Or(config.height, DefaultHeight(standard)))
  }

  lemma AtLeast(a: nat, b: nat, c: nat)
    requires a <= b
    ensures a * c <= b * c
  {
  }

  /** The checks that the code makes on the width. */
  lemma WidthChecks(width: nat)
    ensures (160 <= width <= 1024 && width % 64 == 0 && 2560 % width == 0) <==>
            (width == 256 || width == 320 || width == 512 || width == 640)
    ensures 160 <= width <= 1024 ==> 0 < 2560 / width <= 16
  {
    if 160 <= width <= 1024 {
      assert 2560 / width * width + 2560 % width == 2560;
      var q := 2560 / width;
      if q > 16 { AtLeast(17, q, width); }
      if width % 64 == 0 {
        var k := width / 64;
        assert width == 64 * k && 3 <= k <= 16;
        assert || k == 3 || k == 4 || k == 5 || k == 6 || k == 7 || k == 8 || k == 9
               || k == 10 || k == 11 || k == 12 || k == 13 || k == 14 || k == 15 || k == 16;
      }
    }
  }

  /** And on the height. */
  lemma HeightChecks(full: nat, height: nat)
    requires full == 448 || full == 512
    ensures (0 < height <= full && full % height == 0 && full / height <= 4) <==>
            (height == full || height * 2 == full || height * 4 == full)
    ensures 0 < height <= full ==> full / height > 0
  {
    if 0 < height <= full {
      var q := full / height;
      assert q * height + full % height == full;
      if q <= 4 && full % height == 0 {
        assert q == 1 || q == 2 || q == 3 || q == 4;
      }
    }
  }

  // ---------------------------------------------------------------- textures

  datatype Format = Rgba32 | Indexed8 | Indexed4

  function PageWidth(f: Format): (n: nat)
    ensures IsAlignment(n)
  {
    if f.Rgba32? then 64 else 128
  }

  function PageHeight(f: Format): (n: nat)
    ensures IsAlignment(n)
  {
    match f
    case Rgba32 => 32
    case Indexed8 => 64
    case Indexed4 => 128
  }

  function Area(width: nat, height: nat): (n: nat) {
    width * height
  }

  /** Bytes of `n` pixels, an odd half byte rounded up. */
  function PixelBytes(f: Format, n: nat): (bytes: nat) {
    match f
    case Rgba32 => 4 * n
    case Indexed8 => n
    case Indexed4 => (n + 1) / 2
  }

  /** The bytes of an image. */
  function DataBytes(f: Format, width: nat, height: nat): (bytes: nat) {
    PixelBytes(f, Area(width, height))
  }

  /** The bytes that the image occupies, in whole pages. */
  function StorageBytes(f: Format, width: nat, height: nat): (bytes: nat) {
    var n := Area(AlignUp(width, PageWidth(f)), AlignUp(height, PageHeight(f)));
    if f.Indexed4? then n / 2 else PixelBytes(f, n)
  }

  /** The room set aside for a palette. */
  function ClutBytes(f: Format): (bytes: nat) {
    match f
    case Rgba32 => 0
    case Indexed8 => 1024
    case Indexed4 => 256
  }

  predicate GoodDimensions(width: nat, height: nat) {
    0 < width <= 1024 && 0 < height <= 1024
  }

  lemma AreaBounds(w: nat, h: nat, w': nat, h': nat)
    requires 0 < w <= w' <= 1024 && 0 < h <= h' <= 1024
    ensures 0 < Area(w, h) <= Area(w', h') <= 1048576
  {
    AtLeast(w, w', h);
    assert w' * h <= w' * h' by { AtLeast(h, h', w'); }
    assert w' * h' <= 1024 * h' by { AtLeast(w', 1024, h'); }
    assert w * h >= h by { AtLeast(1, w, h); }
  }

  lemma PaddedSize(value: nat, alignment: nat)
    requires 0 < value <= 1024 && (alignment == 32 || alignment == 64 || alignment == 128)
    ensures value <= AlignUp(value, alignment) <= 1024
    ensures exists half :: AlignUp(value, alignment) == 2 * half
  {
    var r := AlignUp(value, alignment);
    var k := if alignment == 32 then r / 32 else if alignment == 64 then r / 64 else r / 128;
    assert r == alignment * k by {
      if alignment == 32 {
        assert r == 32 * k;
      } else if alignment == 64 {
        assert r == 64 * k;
      } else {
        assert r == 128 * k;
      }
    }
    var half := if alignment == 32 then 16 * k else if alignment == 64 then 32 * k else 64 * k;
    assert r == 2 * half;
  }

  lemma EvenArea(width: nat, height: nat, half: nat)
    requires height == 2 * half
    ensures Area(width, height) == 2 * Area(width, half)
  {
  }

  /** The pages hold the image. */
  lemma StorageHolds(f: Format, width: nat, height: nat)
    requires GoodDimensions(width, height)
    ensures 0 < DataBytes(f, width, height) <= StorageBytes(f, width, height) <= VRAM_BYTES
  {
    var w, h := AlignUp(width, PageWidth(f)), AlignUp(height, PageHeight(f));
    PaddedSize(width, PageWidth(f));
    PaddedSize(height, PageHeight(f));
    AreaBounds(width, height, w, h);
    var half :| h == 2 * half;
    EvenArea(w, h, half);
    AreaHolds(f, Area(width, height), Area(w, h), Area(w, half));
  }

  lemma AreaHolds(f: Format, n: nat, n': nat, half: nat)
    requires 0 < n <= n' <= 1048576 && n' == 2 * half
    ensures 0 < PixelBytes(f, n) <= (if f.Indexed4? then n' / 2 else PixelBytes(f, n')) <= VRAM_BYTES
  {
  }

  // ---------------------------------------------------------------- whole pages, and no more

  /** `bytes` are the pages of the least rectangle of pages that holds the image. */
  ghost predicate WholePages(bytes: nat, width: nat, height: nat, pageWidth: nat, pageHeight: nat) {
    exists columns: nat, rows: nat :: PageRectangle(bytes, width, height, pageWidth, pageHeight, columns, rows)
  }

  predicate PageRectangle(bytes: nat, width: nat, height: nat, pageWidth: nat, pageHeight: nat,
                          columns: nat, rows: nat)
  {
    && bytes == Area(columns, rows) * 8192
    && pageWidth * columns < width + pageWidth && width <= pageWidth * columns
    && pageHeight * rows < height + pageHeight && height <= pageHeight * rows
  }

  /** The pages of each format, in pixels. */
  function PageSize(f: Format): (size: (nat, nat)) {
    match f
    case Rgba32 => (64, 32)
    case Indexed8 => (128, 64)
    case Indexed4 => (128, 128)
  }

  lemma Multiple(value: nat, alignment: nat) returns (k: nat)
    requires alignment == 32 || alignment == 64 || alignment == 128
    ensures AlignUp(value, alignment) == alignment * k
  {
    k := AlignUp(value, alignment) / alignment;
  }

  lemma PageArea(columns: nat, rows: nat)
    ensures Area(64 * columns, 32 * rows) * 4 == Area(columns, rows) * 8192
    ensures Area(128 * columns, 64 * rows) == Area(columns, rows) * 8192
    ensures Area(128 * columns, 128 * rows) / 2 == Area(columns, rows) * 8192
  {
    var n := columns * rows;
    assert (64 * columns) * (32 * rows) == 2048 * n;
    assert (128 * columns) * (64 * rows) == 8192 * n;
    assert (128 * columns) * (128 * rows) == 16384 * n;
  }

  /** The bytes set aside for an image are its whole pages, and its data are its bits, rounded up to bytes. */
  lemma StorageExactly(f: Format, width: nat, height: nat)
    ensures WholePages(StorageBytes(f, width, height), width, height, PageSize(f).0, PageSize(f).1)
    ensures var bits := (if f.Rgba32? then 32 else if f.Indexed8? then 8 else 4) * Area(width, height);
            bits <= 8 * DataBytes(f, width, height) < bits + 8
  {
    var columns := Multiple(width, PageWidth(f));
    var rows := Multiple(height, PageHeight(f));
    PageArea(columns, rows);
    assert PageRectangle(StorageBytes(f, width, height), width, height, PageSize(f).0, PageSize(f).1, columns, rows);
  }

  lemma PagesAreBlocks(base: nat)
    requires base % 8192 == 0
    ensures base % 256 == 0
  {
    var k := base / 8192;
    assert base == 256 * (32 * k);
  }

  function TextureBase(cursor: nat): (base: nat)
    ensures cursor <= base < cursor + PAGE_BYTES && base % 8192 == 0 && base % 256 == 0
  {
    PagesAreBlocks(AlignUp(cursor, PAGE_BYTES));
    AlignUp(cursor, PAGE_BYTES)
  }

  /** Where the palette goes: behind the texture, on a 256-byte block. */
  function ClutBase(f: Format, width: nat, height: nat, cursor: nat): (base: nat)
    ensures base % 256 == 0
    ensures TextureBase(cursor) + StorageBytes(f, width, height) <= base
            < TextureBase(cursor) + StorageBytes(f, width, height) + 256
  {
    AlignUp(TextureBase(cursor) + StorageBytes(f, width, height), 256)
  }

  /** Where the next allocation may begin. */
  function NewCursor(f: Format, width: nat, height: nat, cursor: nat): (next: nat) {
    if f.Rgba32? then TextureBase(cursor) + StorageBytes(f, width, height)
    else ClutBase(f, width, height, cursor) + ClutBytes(f)
  }

  /** A stretch of VRAM in use. */
  datatype Region = Region(lo: nat, hi: nat)

  /** What an upload adds to the regions in use. */
  function NewRegions(f: Format, width: nat, height: nat, cursor: nat): (rs: seq<Region>) {
    var base, clut := TextureBase(cursor), ClutBase(f, width, height, cursor);
    [Region(base, base + StorageBytes(f, width, height))]
    + (if f.Rgba32? then [] else [Region(clut, clut + ClutBytes(f))])
  }

  /**
   Where an upload puts what: the image in whole pages on the next page, the palette of 1024 or 256 bytes on the next
   block behind it, and the cursor behind that.
   */
  lemma RegionsExactly(f: Format, width: nat, height: nat, cursor: nat)
    ensures var rs := NewRegions(f, width, height, cursor);
            && |rs| == (if f.Rgba32? then 1 else 2) && NewCursor(f, width, height, cursor) == rs[|rs| - 1].hi
            && rs[0].lo % 8192 == 0 && cursor <= rs[0].lo < cursor + 8192 && rs[0].lo <= rs[0].hi
            && WholePages(rs[0].hi - rs[0].lo, width, height, PageSize(f).0, PageSize(f).1)
            && (!f.Rgba32? ==>
                  && rs[1].lo % 256 == 0 && rs[0].hi <= rs[1].lo < rs[0].hi + 256
                  && rs[1].hi == rs[1].lo + (if f.Indexed8? then 1024 else 256))
  {
    StorageExactly(f, width, height);
  }

  /** The regions lie in lo..hi, one behind the other. */
  ghost predicate Stacked(rs: seq<Region>, lo: nat, hi: nat) {
    && (forall i :: 0 <= i < |rs| ==> lo <= rs[i].lo < rs[i].hi <= hi)
    && (forall i, j :: 0 <= i < j < |rs| ==> rs[i].hi <= rs[j].lo)
  }

  predicate Overlap(a: Region, b: Region) {
    a.lo < b.hi && b.lo < a.hi
  }

  lemma StackGrows(rs: seq<Region>, lo: nat, cursor: nat, f: Format, width: nat, height: nat)
    requires Stacked(rs, lo, cursor) && lo <= cursor && GoodDimensions(width, height)
    ensures Stacked(rs + NewRegions(f, width, height, cursor), lo, NewCursor(f, width, height, cursor))
    ensures cursor < NewCursor(f, width, height, cursor)
  {
    StorageHolds(f, width, height);
    var added := NewRegions(f, width, height, cursor);
    var all := rs + added;
    assert forall i :: 0 <= i < |added| ==> cursor <= added[i].lo < added[i].hi <= NewCursor(f, width, height, cursor);
  }

  /** No two regions overlap, and none overlaps a framebuffer or leaves VRAM. */
  lemma Separate(rs: seq<Region>, start: nat, cursor: nat, i: nat, framebuffer: Region)
    requires Stacked(rs, start, cursor) && cursor <= VRAM_BYTES && framebuffer.hi <= start && i < |rs|
    ensures !Overlap(rs[i], framebuffer) && rs[i].lo < rs[i].hi <= VRAM_BYTES
    ensures forall j :: 0 <= j < |rs| && j != i ==> !Overlap(rs[i], rs[j])
  {
    forall j | 0 <= j < |rs| && j != i ensures !Overlap(rs[i], rs[j]) {
      if i < j { assert rs[i].hi <= rs[j].lo; } else { assert rs[j].hi <= rs[i].lo; }
    }
  }
}

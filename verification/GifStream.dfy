/** The packet stream of an image upload, and the reader that takes it apart again. */
module GifStream {
  import opened Machine

  datatype Qword = Qword(lo: u64, hi: u64)

  const REG_AD: u64 := 0x0E
  const FLG_PACKED: nat := 0
  const FLG_IMAGE: nat := 2
  const IMAGE_MAX_QWORDS: u32 := 0x7FFF

  const ADDR_TEXFLUSH: u64 := 0x3F
  const ADDR_BITBLTBUF: u64 := 0x50
  const ADDR_TRXPOS: u64 := 0x51
  const ADDR_TRXREG: u64 := 0x52
  const ADDR_TRXDIR: u64 := 0x53

  // A field masked to w bits and shifted left by s is (field % 2^w) * 2^s; fields that do not overlap
  // are joined by addition.

  function PackTag(nloop: nat, eop: nat, pre: nat, prim: nat, flg: nat, nreg: nat): (tag: u64) {
    nloop % 0x8000
    + (eop % 2) * 0x8000
    + (pre % 2) * 0x4000_0000_0000
    + (prim % 0x800) * 0x8000_0000_0000
    + (flg % 4) * 0x400_0000_0000_0000
    + (nreg % 16) * 0x1000_0000_0000_0000
  }

  function PackBitbltbuf(dbp: nat, dbw: nat, dpsm: nat): (data: u64) {
    (dbp % 0x4000) * 0x1_0000_0000 + (dbw % 0x40) * 0x1_0000_0000_0000 + (dpsm % 0x40) * 0x100_0000_0000_0000
  }

  function PackTrxpos(dx: nat, dy: nat): (data: u64) {
    (dx % 0x800) * 0x1_0000_0000 + (dy % 0x800) * 0x1_0000_0000_0000
  }

  function PackTrxreg(width: nat, height: nat): (data: u64) {
    width % 0x1000 + (height % 0x1000) * 0x1_0000_0000
  }

  // The fields a reader looks at.

  function Nloop(tag: u64): (n: nat) { tag % 0x8000 }
  function Flg(tag: u64): (f: nat) { (tag / 0x400_0000_0000_0000) % 4 }
  function Nreg(tag: u64): (n: nat) { tag / 0x1000_0000_0000_0000 }

  /** What the reader needs of a tag can be read back, up to the width of each field. */
  lemma TagFields(nloop: nat, eop: nat, pre: nat, prim: nat, flg: nat, nreg: nat)
    ensures var tag := PackTag(nloop, eop, pre, prim, flg, nreg);
            Nloop(tag) == nloop % 0x8000 && Flg(tag) == flg % 4 && Nreg(tag) == nreg % 16
  {
    TagParts(nloop % 0x8000, eop % 2, pre % 2, prim % 0x800, flg % 4, nreg % 16,
             PackTag(nloop, eop, pre, prim, flg, nreg));
  }

  lemma TagParts(nloop: nat, eop: nat, pre: nat, prim: nat, flg: nat, nreg: nat, tag: u64)
    requires nloop < 0x8000 && eop < 2 && pre < 2 && prim < 0x800 && flg < 4 && nreg < 16
    requires tag == nloop + eop * 0x8000 + pre * 0x4000_0000_0000 + prim * 0x8000_0000_0000
                    + flg * 0x400_0000_0000_0000 + nreg * 0x1000_0000_0000_0000
    ensures Nloop(tag) == nloop && Flg(tag) == flg && Nreg(tag) == nreg
  {
    assert tag / 0x400_0000_0000_0000 == flg + 4 * nreg;
  }

  /** The destination of a transfer, as the GS reads it from the register. */
  lemma DestinationFields(dbp: nat, dbw: nat, dpsm: nat)
    requires dbp < 0x4000 && dbw < 0x40 && dpsm < 0x40
    ensures var data := PackBitbltbuf(dbp, dbw, dpsm);
            && (data / 0x1_0000_0000) % 0x4000 == dbp && (data / 0x1_0000_0000_0000) % 0x40 == dbw
            && data / 0x100_0000_0000_0000 == dpsm
  {
    DestinationParts(dbp, dbw, dpsm, PackBitbltbuf(dbp, dbw, dpsm));
  }

  lemma DestinationParts(dbp: nat, dbw: nat, dpsm: nat, data: u64)
    requires dbp < 0x4000 && dbw < 0x40 && dpsm < 0x40
    requires data == dbp * 0x1_0000_0000 + dbw * 0x1_0000_0000_0000 + dpsm * 0x100_0000_0000_0000
    ensures (data / 0x1_0000_0000) % 0x4000 == dbp && (data / 0x1_0000_0000_0000) % 0x40 == dbw
    ensures data / 0x100_0000_0000_0000 == dpsm
  {
    assert data / 0x1_0000_0000 == dbp + 0x1_0000 * (dbw + 0x100 * dpsm);
    assert data / 0x1_0000_0000_0000 == dbw + 0x100 * dpsm;
  }

  /** The size of a transfer, as the GS reads it from the register. */
  lemma SizeFields(width: nat, height: nat)
    requires width < 0x1000 && height < 0x1000
    ensures var data := PackTrxreg(width, height);
            data % 0x1000 == width && data / 0x1_0000_0000 == height
  {
    SizeParts(width, height, PackTrxreg(width, height));
  }

  lemma SizeParts(width: nat, height: nat, data: u64)
    requires width < 0x1000 && height < 0x1000 && data == width + height * 0x1_0000_0000
    ensures data % 0x1000 == width && data / 0x1_0000_0000 == height
  {
  }

  // ---------------------------------------------------------------- the reader

  /** What a packet stream makes the GS do: write a register, or take a qword of image data. */
  datatype Event = Write(address: u64, data: u64) | Image(qword: Qword)

  datatype Reading = Events(events: seq<Event>) | Malformed

  /** How many qwords a tag announces, and what they are. */
  datatype Header = Header(count: nat, kind: Kind)
  datatype Kind = RegisterWrites | ImageData | Unknown

  function Decode(tag: Qword): (h: Header) {
    Header(Nloop(tag.lo),
           if Flg(tag.lo) == FLG_IMAGE then ImageData
           else if Flg(tag.lo) == FLG_PACKED && Nreg(tag.lo) == 1 && tag.hi == REG_AD then RegisterWrites
           else Unknown)
  }

  function Writes(qs: seq<Qword>): (es: seq<Event>)
    ensures |es| == |qs|
  {
    seq(|qs|, k requires 0 <= k < |qs| => Write(qs[k].hi, qs[k].lo))
  }

  function Images(qs: seq<Qword>): (es: seq<Event>)
    ensures |es| == |qs|
  {
    seq(|qs|, k requires 0 <= k < |qs| => Image(qs[k]))
  }

  /** The qwords after a tag, taken as its kind says. */
  function Body(kind: Kind, qs: seq<Qword>): (es: seq<Event>) {
    match kind
    case RegisterWrites => Writes(qs)
    case ImageData => Images(qs)
    case Unknown => []
  }

  /** Reads a stream tag by tag: each tag announces the qwords up to the next one. */
  function Read(decode: Qword -> Header, qs: seq<Qword>): (r: Reading)
    decreases |qs|
  {
    if qs == [] then Events([]) else
    var h := decode(qs[0]);
    if h.kind.Unknown? || h.count + 1 > |qs| then Malformed else
    var rest := Read(decode, qs[h.count + 1..]);
    if rest.Events? then Events(Body(h.kind, qs[1..h.count + 1]) + rest.events) else Malformed
  }

  lemma ReadPacket(decode: Qword -> Header, tag: Qword, qs: seq<Qword>, rest: seq<Qword>)
    requires decode(tag).count == |qs| && !decode(tag).kind.Unknown? && Read(decode, rest).Events?
    ensures Read(decode, [tag] + qs + rest) == Events(Body(decode(tag).kind, qs) + Read(decode, rest).events)
  {
    var all := [tag] + qs + rest;
    assert all[0] == tag && all[1..|qs| + 1] == qs && all[|qs| + 1..] == rest;
  }

  lemma Unpacked(qs: seq<Qword>, n: nat)
    requires n + 1 <= |qs|
    ensures qs == [qs[0]] + qs[1..n + 1] + qs[n + 1..]
  {
  }

  /** Streams compose: what comes first is done first. */
  lemma {:induction false} ReadAppend(decode: Qword -> Header, a: seq<Qword>, b: seq<Qword>)
    requires Read(decode, a).Events? && Read(decode, b).Events?
    ensures Read(decode, a + b) == Events(Read(decode, a).events + Read(decode, b).events)
    decreases |a|
  {
    if a == [] {
      assert a + b == b;
    } else {
      var h := decode(a[0]);
      var qs, rest := a[1..h.count + 1], a[h.count + 1..];
      ReadAppend(decode, rest, b);
      Unpacked(a, h.count);
      Associate([a[0]] + qs, rest, b);
      ReadPacket(decode, a[0], qs, rest + b);
      Associate(Body(h.kind, qs), Read(decode, rest).events, Read(decode, b).events);
    }
  }

  // ---------------------------------------------------------------- what an upload sends

  /** The registers of one transfer to VRAM. */
  datatype Target = Target(destination: nat, width64: nat, psm: nat, width: nat, height: nat)

  function SetupWrites(t: Target): (qs: seq<Qword>)
    ensures |qs| == 4
  {
    [Qword(PackBitbltbuf(t.destination, t.width64, t.psm), ADDR_BITBLTBUF),
     Qword(PackTrxpos(0, 0), ADDR_TRXPOS),
     Qword(PackTrxreg(t.width, t.height), ADDR_TRXREG),
     Qword(0, ADDR_TRXDIR)]
  }

  /** The tag of `n` address-and-data pairs. */
  function AdTag(n: nat): (tag: Qword) {
    Qword(PackTag(n, 1, 0, 0, FLG_PACKED, 1), REG_AD)
  }

  function ImageTag(chunk: nat): (tag: Qword) {
    Qword(PackTag(chunk % 0x1_0000, 1, 0, 0, FLG_IMAGE, 0), 0)
  }

  /** Decoding a tag whose fields are not truncated. */
  lemma Decodes(tag: Qword, nloop: nat, flg: nat, nreg: nat)
    requires nloop < 0x8000 && flg < 4 && nreg < 16
    requires Nloop(tag.lo) == nloop % 0x8000 && Flg(tag.lo) == flg % 4 && Nreg(tag.lo) == nreg % 16
    ensures Decode(tag) == Header(nloop,
              if flg == FLG_IMAGE then ImageData
              else if flg == FLG_PACKED && nreg == 1 && tag.hi == REG_AD then RegisterWrites
              else Unknown)
  {
  }

  lemma WritesDecode(n: nat)
    requires n < 0x8000
    ensures Decode(AdTag(n)) == Header(n, RegisterWrites)
  {
    TagFields(n, 1, 0, 0, FLG_PACKED, 1);
    Decodes(AdTag(n), n, FLG_PACKED, 1);
  }

  /** The chunk length is not truncated by its field. */
  lemma ImageDecodes(chunk: nat)
    requires chunk <= IMAGE_MAX_QWORDS
    ensures Decode(ImageTag(chunk)) == Header(chunk, ImageData)
  {
    FitsTwoBytes(chunk);
    PackedImageDecodes(chunk % 0x1_0000, ImageTag(chunk));
  }

  lemma FitsTwoBytes(chunk: nat)
    requires chunk <= IMAGE_MAX_QWORDS
    ensures chunk % 0x1_0000 == chunk
  {
  }

  lemma PackedImageDecodes(n: nat, tag: Qword)
    requires n <= IMAGE_MAX_QWORDS && tag.lo == PackTag(n, 1, 0, 0, FLG_IMAGE, 0)
    ensures Decode(tag) == Header(n, ImageData)
  {
    TagFields(n, 1, 0, 0, FLG_IMAGE, 0);
    Decodes(tag, n, FLG_IMAGE, 0);
  }

  /** Image data in packets of at most 0x7FFF qwords, each behind a tag. */
  function Packets(tag: nat -> Qword, pixels: seq<Qword>): (qs: seq<Qword>)
    decreases |pixels|
  {
    if pixels == [] then [] else
    var chunk := Min(|pixels|, IMAGE_MAX_QWORDS);
    [tag(chunk)] + pixels[..chunk] + Packets(tag, pixels[chunk..])
  }

  lemma NextPacket(tag: nat -> Qword, sent: seq<Qword>, rest: seq<Qword>, chunk: nat)
    requires rest != [] && chunk == Min(|rest|, IMAGE_MAX_QWORDS)
    ensures sent + Packets(tag, rest) == sent + [tag(chunk)] + rest[..chunk] + Packets(tag, rest[chunk..])
  {
    Regroup(sent, [tag(chunk)], rest[..chunk], Packets(tag, rest[chunk..]));
  }

  lemma Regroup<T>(a: seq<T>, b: seq<T>, c: seq<T>, d: seq<T>)
    ensures a + (b + c + d) == a + b + c + d
  {
  }

  lemma ImagesJoin(a: seq<Qword>, b: seq<Qword>)
    ensures Images(a) + Images(b) == Images(a + b)
  {
  }

  lemma {:induction false} PacketsRead(decode: Qword -> Header, tag: nat -> Qword, pixels: seq<Qword>)
    requires forall n: nat :: n <= IMAGE_MAX_QWORDS ==> decode(tag(n)) == Header(n, ImageData)
    ensures Read(decode, Packets(tag, pixels)) == Events(Images(pixels))
    decreases |pixels|
  {
    if pixels != [] {
      var chunk := Min(|pixels|, IMAGE_MAX_QWORDS);
      var first, rest := pixels[..chunk], pixels[chunk..];
      PacketsRead(decode, tag, rest);
      ReadPacket(decode, tag(chunk), first, Packets(tag, rest));
      ImagesJoin(first, rest);
      assert first + rest == pixels;
    }
  }

  /** Everything an upload sends. */
  function Upload(t: Target, pixels: seq<Qword>): (qs: seq<Qword>) {
    [AdTag(4)] + SetupWrites(t) + Packets(ImageTag, pixels)
  }

  lemma PartsRead(decode: Qword -> Header, tag: Qword, setup: seq<Qword>, images: seq<Qword>, pixels: seq<Qword>)
    requires decode(tag) == Header(|setup|, RegisterWrites) && Read(decode, images) == Events(Images(pixels))
    ensures Read(decode, [tag] + setup + images) == Events(Writes(setup) + Images(pixels))
  {
    ReadPacket(decode, tag, setup, images);
  }

  /** The whole upload, read back: four register writes, then every source qword in order. */
  lemma UploadReads(t: Target, pixels: seq<Qword>)
    ensures Read(Decode, Upload(t, pixels)) == Events(Writes(SetupWrites(t)) + Images(pixels))
  {
    forall n: nat | n <= IMAGE_MAX_QWORDS ensures Decode(ImageTag(n)) == Header(n, ImageData) {
      ImageDecodes(n);
    }
    PacketsRead(Decode, ImageTag, pixels);
    WritesDecode(4);
    PartsRead(Decode, AdTag(4), SetupWrites(t), Packets(ImageTag, pixels), pixels);
  }
}

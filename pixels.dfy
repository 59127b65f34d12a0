/** Conversion of source colours into the panel's wire pixel format
    (`_ifpf_cvt_rgb565` in include/mipi.h) and the table of supported
    output formats (`MIPI_PANEL_FMT` in src/mipi_dbi.c). */
module PixelCodec {
  import opened Common

  /** A 24-bit RGB colour (`struct mipi_color`). */
  datatype Color = Color(r: bv8, g: bv8, b: bv8)

  /** The channel precision that survives 5-6-5 packing. */
  datatype Rgb565 = Rgb565(r5: bv8, g6: bv8, b5: bv8)

  /** Colour formats of `enum mipi_color_fmt`. */
  datatype ColorFmt = Mono | Rgb565Fmt | Rgb666Fmt | Rgb888Fmt | YCbCr422Fmt | Hsv32Fmt

  /** The packing functions a format entry may name. */
  datatype Converter = CvtRgb565

  /** An interface pixel format entry (`struct mipi_ifpf`). */
  datatype Ifpf = Ifpf(fmt: ColorFmt, bytesPerPx: nat, cvt: Option<Converter>)

  /** First wire byte: blue's top five bits above green's top three. The
      source combines the halves with XOR. */
  function Rgb565Hi(c: Color): bv8 {
    (c.b & 0xF8) ^ (c.g >> 5)
  }

  /** Second wire byte: green bits 4..2 above red's top five bits. In C the
      shift happens in `int`; `(g & 0x1C) << 3` is at most 0xE0, so the
      byte-wide shift here loses nothing. */
  function Rgb565Lo(c: Color): bv8 {
    ((c.g & 0x1C) << 3) ^ (c.r >> 3)
  }

  /** The XOR in the source acts as OR: the two operands of each byte
      occupy disjoint bits. */
  lemma XorIsOr(c: Color)
    ensures (c.b & 0xF8) & (c.g >> 5) == 0
    ensures ((c.g & 0x1C) << 3) & (c.r >> 3) == 0
    ensures Rgb565Hi(c) == (c.b & 0xF8) | (c.g >> 5)
    ensures Rgb565Lo(c) == ((c.g & 0x1C) << 3) | (c.r >> 3)
  {
  }

  /** Reads the channels back out of the two wire bytes. */
  function Unpack565(hi: bv8, lo: bv8): (p: Rgb565)
    ensures p.r5 < 32 && p.g6 < 64 && p.b5 < 32
  {
    Rgb565(lo & 0x1F, ((hi & 0x07) << 3) | (lo >> 5), hi >> 3)
  }

  /** The part of a colour the 16-bit format keeps. */
  function Truncate565(c: Color): Rgb565 {
    Rgb565(c.r >> 3, c.g >> 2, c.b >> 3)
  }

  /** Packing then unpacking returns the top five bits of red and blue and
      the top six bits of green. */
  lemma UnpackPack(c: Color)
    ensures Unpack565(Rgb565Hi(c), Rgb565Lo(c)) == Truncate565(c)
  {
  }

  /** Two colours pack to the same bytes exactly when they agree on the bits
      the format keeps. */
  lemma PackEqualIff(c: Color, d: Color)
    ensures (Rgb565Hi(c) == Rgb565Hi(d) && Rgb565Lo(c) == Rgb565Lo(d))
        <==> Truncate565(c) == Truncate565(d)
  {
    if Rgb565Hi(c) == Rgb565Hi(d) && Rgb565Lo(c) == Rgb565Lo(d) {
      UnpackPack(c);
      UnpackPack(d);
    }
  }

  /** The 16-bit encoding of a colour array, two bytes per colour. */
  function PackAll(clr: seq<Color>): seq<bv8>
    decreases |clr|
  {
    if clr == [] then [] else [Rgb565Hi(clr[0]), Rgb565Lo(clr[0])] + PackAll(clr[1..])
  }

  /** Colour `i` occupies bytes `2i` and `2i+1`, and the output is exactly
      twice as long as the input. */
  lemma {:induction false} PackAllAt(clr: seq<Color>, i: nat)
    requires i < |clr|
    ensures |PackAll(clr)| == 2 * |clr|
    ensures PackAll(clr)[2 * i] == Rgb565Hi(clr[i])
    ensures PackAll(clr)[2 * i + 1] == Rgb565Lo(clr[i])
    decreases |clr|
  {
    if i > 0 {
      PackAllAt(clr[1..], i - 1);
    } else if |clr| > 1 {
      PackAllAt(clr[1..], 0);
    }
  }

  lemma {:induction false} PackAllLength(clr: seq<Color>)
    ensures |PackAll(clr)| == 2 * |clr|
  {
    if clr != [] {
      PackAllAt(clr, 0);
    }
  }

  /** Decodes a 16-bit wire buffer back into channel values. */
  function UnpackAll(bytes: seq<bv8>): seq<Rgb565>
    decreases |bytes|
  {
    if |bytes| < 2 then [] else [Unpack565(bytes[0], bytes[1])] + UnpackAll(bytes[2..])
  }

  /** Round trip of the whole buffer: every colour comes back truncated to
      5-6-5 precision, in order. */
  lemma {:induction false} UnpackAllPackAll(clr: seq<Color>)
    ensures UnpackAll(PackAll(clr)) == seq(|clr|, i requires 0 <= i < |clr| => Truncate565(clr[i]))
    decreases |clr|
  {
    if clr != [] {
      var rest := PackAll(clr[1..]);
      assert PackAll(clr) == [Rgb565Hi(clr[0]), Rgb565Lo(clr[0])] + rest;
      assert PackAll(clr)[2..] == rest;
      UnpackPack(clr[0]);
      UnpackAllPackAll(clr[1..]);
    }
  }

  /** `_ifpf_cvt_rgb565` with the evident indexing: a zero-filled buffer of
      `2 * N` bytes (the format has two bytes per pixel), one conversion per
      input colour at bytes `2i` and `2i+1`, and the byte count as result.
      The source writes `[i]` and `[i+1]` and returns `sizeof` a pointer;
      see `ConvertAsWritten` and `AsWrittenByteCount`. */
  method ConvertRgb565(clr: seq<Color>) returns (buf: array<bv8>, n: nat)
    ensures fresh(buf)
    ensures n == buf.Length == 2 * |clr|
    ensures buf[..] == PackAll(clr)
  {
    buf := new bv8[2 * |clr|](_ => 0);
    for i := 0 to |clr|
      invariant forall k :: 0 <= k < i ==>
        buf[2 * k] == Rgb565Hi(clr[k]) && buf[2 * k + 1] == Rgb565Lo(clr[k])
      invariant forall k :: 2 * i <= k < buf.Length ==> buf[k] == 0
    {
      buf[2 * i] := Rgb565Hi(clr[i]);
      buf[2 * i + 1] := Rgb565Lo(clr[i]);
    }
    n := buf.Length;
    PackAllLength(clr);
    forall j | 0 <= j < buf.Length
      ensures buf[j] == PackAll(clr)[j]
    {
      PackAllAt(clr, j / 2);
    }
  }

  /** The loop of `_ifpf_cvt_rgb565` as written: colour `i` goes to bytes
      `i` and `i+1`, so each colour's first byte overwrites the previous
      colour's second byte. */
  function ConvertAsWritten(clr: seq<Color>, i: nat, buf: seq<bv8>): seq<bv8>
    requires i <= |clr| && |buf| == 2 * |clr|
    decreases |clr| - i
  {
    if i == |clr| then buf
    else ConvertAsWritten(clr, i + 1, buf[i := Rgb565Hi(clr[i])][i + 1 := Rgb565Lo(clr[i])])
  }

  /** A white pixel followed by a black one: the as-written loop keeps only
      the first byte of the white pixel, while the packed image is
      `[0xFF, 0xFF, 0x00, 0x00]`. */
  lemma AsWrittenOverlaps()
    ensures var clr := [Color(0xFF, 0xFF, 0xFF), Color(0, 0, 0)];
      ConvertAsWritten(clr, 0, [0, 0, 0, 0]) == [0xFF, 0x00, 0x00, 0x00] &&
      PackAll(clr) == [0xFF, 0xFF, 0x00, 0x00]
  {
  }

  /** The source returns `sizeof(*clr_buff)`, the size of a `u8 *`: four
      bytes on the 32-bit target, whatever the number of colours. */
  function AsWrittenByteCount(clr: seq<Color>): nat {
    4
  }

  lemma AsWrittenByteCountWrong(clr: seq<Color>)
    requires |clr| != 2
    ensures AsWrittenByteCount(clr) != |PackAll(clr)|
  {
    PackAllLength(clr);
  }

  /** `MIPI_PANEL_FMT`: only the 16-bit and 24-bit formats have entries. */
  function PanelFormat(f: ColorFmt): (p: Option<Ifpf>)
    ensures p.Some? ==> p.value.fmt == f
    ensures p.Some? <==> f == Rgb565Fmt || f == Rgb888Fmt
  {
    match f
    case Rgb565Fmt => Some(Ifpf(Rgb565Fmt, 2, Some(CvtRgb565)))
    case Rgb888Fmt => Some(Ifpf(Rgb888Fmt, 3, None))
    case _ => None
  }

  /** 24-bit colours go out as they are: one byte per channel, r, g, b. */
  function PassThrough(clr: seq<Color>): seq<bv8>
    decreases |clr|
  {
    if clr == [] then [] else [clr[0].r, clr[0].g, clr[0].b] + PassThrough(clr[1..])
  }

  lemma {:induction false} PassThroughAt(clr: seq<Color>, i: nat)
    requires i < |clr|
    ensures |PassThrough(clr)| == 3 * |clr|
    ensures PassThrough(clr)[3 * i .. 3 * i + 3] == [clr[i].r, clr[i].g, clr[i].b]
    decreases |clr|
  {
    if i > 0 {
      PassThroughAt(clr[1..], i - 1);
    } else if |clr| > 1 {
      PassThroughAt(clr[1..], 0);
    }
  }

  /** The bytes a format entry produces: its converter when it names one,
      the colour bytes unchanged otherwise. */
  function EncodePixels(p: Ifpf, clr: seq<Color>): seq<bv8> {
    match p.cvt
    case Some(CvtRgb565) => PackAll(clr)
    case None => PassThrough(clr)
  }

  /** Every table entry yields exactly `bytesPerPx` bytes per colour. */
  lemma EncodePixelsLength(f: ColorFmt, clr: seq<Color>)
    requires PanelFormat(f).Some?
    ensures |EncodePixels(PanelFormat(f).value, clr)| == PanelFormat(f).value.bytesPerPx * |clr|
  {
    if f == Rgb565Fmt {
      PackAllLength(clr);
    } else if clr != [] {
      PassThroughAt(clr, 0);
    }
  }
}

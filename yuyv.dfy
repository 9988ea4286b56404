/**
 * The YUYV (V4L2_PIX_FMT_YUYV, YUV 4:2:2) converters of yuyv.c: grey
 * extraction and the integer fixed-point YCbCr-to-RGB conversion, the usual
 * 8-bit approximation of ITU-R BT.601 studio-range YCbCr to full-range RGB.
 *
 * A YUYV image is an array of 16-bit words, one per pixel. Read as bytes on a
 * little-endian host, a row is a run of 4-byte groups `Y0 U Y1 V`: the low
 * byte of every word is that pixel's luma, the high byte of an even word is
 * the pair's U (Cb), and the high byte of the following odd word is its V (Cr).
 */
module Yuyv {
  import opened Common

  // ---------------------------------------------------------------------
  // Pure arithmetic
  // ---------------------------------------------------------------------

  /** `clampi`: saturate an integer into the range of an `uint8_t`. */
  function Clampi(v: int): (r: byte)
    ensures 0 <= v <= 255 ==> r == v
    ensures v < 0 ==> r == 0
    ensures v > 255 ==> r == 255
  {
    if v < 0 then 0 else if v > 255 then 255 else v
  }

  /**
   * `x >> 8` on a signed `int`: the compilers this code targets shift
   * arithmetically, which rounds toward minus infinity.
   */
  function Shr8(x: int): (q: int)
    ensures 256 * q <= x < 256 * q + 256
  {
    x / 256
  }

  /** One RGB pixel, channels in the order the converters store them. */
  datatype Rgb = Rgb(red: byte, green: byte, blue: byte)

  /**
   * The integer branch of `YUV2RGB`: C = y-16, D = u-128, E = v-128, and
   * each channel a clamped `(... + 128) >> 8` of a fixed-point sum.
   */
  function Yuv2Rgb(y: int, u: int, v: int): Rgb
  {
    var c := y - 16;
    var d := u - 128;
    var e := v - 128;
    Rgb(Clampi(Shr8(298 * c + 409 * e + 128)),
        Clampi(Shr8(298 * c - 100 * d - 208 * e + 128)),
        Clampi(Shr8(298 * c + 516 * d + 128)))
  }

  /** A pixel whose chroma is neutral (U = V = 128) is grey. */
  lemma NeutralChromaIsGrey(y: int)
    ensures Yuv2Rgb(y, 128, 128).red == Yuv2Rgb(y, 128, 128).green
    ensures Yuv2Rgb(y, 128, 128).green == Yuv2Rgb(y, 128, 128).blue
  {
  }

  /**
   * Studio range to full range: with neutral chroma, luma 16 and below is
   * black and luma 235 and above is white.
   */
  lemma StudioRangeEnds(y: int)
    ensures y <= 16 ==> Yuv2Rgb(y, 128, 128) == Rgb(0, 0, 0)
    ensures y >= 235 ==> Yuv2Rgb(y, 128, 128) == Rgb(255, 255, 255)
  {
  }

  /** Clamping never reverses the order of two values. */
  lemma ClampiMonotone(a: int, b: int)
    requires a <= b
    ensures Clampi(a) <= Clampi(b)
  {
  }

  /** Arithmetic right shift never reverses the order of two values. */
  lemma Shr8Monotone(a: int, b: int)
    requires a <= b
    ensures Shr8(a) <= Shr8(b)
  {
  }

  /** For fixed chroma, more luma never darkens any channel. */
  lemma {:induction false} LumaMonotone(y1: int, y2: int, u: int, v: int)
    requires y1 <= y2
    ensures Yuv2Rgb(y1, u, v).red <= Yuv2Rgb(y2, u, v).red
    ensures Yuv2Rgb(y1, u, v).green <= Yuv2Rgb(y2, u, v).green
    ensures Yuv2Rgb(y1, u, v).blue <= Yuv2Rgb(y2, u, v).blue
  {
    var c1, c2, d, e := y1 - 16, y2 - 16, u - 128, v - 128;
    Shr8Monotone(298 * c1 + 409 * e + 128, 298 * c2 + 409 * e + 128);
    ClampiMonotone(Shr8(298 * c1 + 409 * e + 128), Shr8(298 * c2 + 409 * e + 128));
    Shr8Monotone(298 * c1 - 100 * d - 208 * e + 128, 298 * c2 - 100 * d - 208 * e + 128);
    ClampiMonotone(Shr8(298 * c1 - 100 * d - 208 * e + 128), Shr8(298 * c2 - 100 * d - 208 * e + 128));
    Shr8Monotone(298 * c1 + 516 * d + 128, 298 * c2 + 516 * d + 128);
    ClampiMonotone(Shr8(298 * c1 + 516 * d + 128), Shr8(298 * c2 + 516 * d + 128));
  }

  // ---------------------------------------------------------------------
  // Image layout
  // ---------------------------------------------------------------------

  /** The low byte of a word: a pixel's luma. */
  function Low(x: u16): byte { x % 256 }

  /** The high byte of a word: U on even pixels, V on odd ones. */
  function High(x: u16): byte { x / 256 }

  /** Byte `j` of the image read as bytes, little-endian, as `iline[...]` does. */
  function ByteAt(yuyv: seq<u16>, j: int): byte
    requires 0 <= j < 2 * |yuyv|
  {
    if j % 2 == 0 then Low(yuyv[j / 2]) else High(yuyv[j / 2])
  }

  /** Number of pixels the nested `r < h`, `c < w` loops visit. */
  function Pixels(w: int, h: int): (n: nat)
    ensures n == 0 <==> w <= 0 || h <= 0
    ensures n > 0 ==> n == w * h
  {
    if w <= 0 || h <= 0 then 0 else w * h
  }

  /** The luma and chroma of one pixel. */
  datatype Yuv = Yuv(y: byte, u: byte, v: byte)

  /**
   * The YUV of pixel `p` of an image of whole pixel pairs: the luma of its
   * own word, with the U of the pair's even word and the V of its odd word.
   */
  function PixelYuv(img: seq<u16>, p: int): Yuv
    requires |img| % 2 == 0 && 0 <= p < |img|
  {
    if p % 2 == 0 then Yuv(Low(img[p]), High(img[p]), High(img[p + 1]))
    else Yuv(Low(img[p]), High(img[p - 1]), High(img[p]))
  }

  /**
   * Both pixels of pair `g` (pixels 2g and 2g+1) carry the chroma of that
   * pair: U from the even word, V from the odd one.
   */
  lemma {:induction false} PairSharesChroma(img: seq<u16>, g: int)
    requires |img| % 2 == 0 && 0 <= g && 2 * g + 1 < |img|
    ensures PixelYuv(img, 2 * g).u == PixelYuv(img, 2 * g + 1).u == High(img[2 * g])
    ensures PixelYuv(img, 2 * g).v == PixelYuv(img, 2 * g + 1).v == High(img[2 * g + 1])
  {
    assert (2 * g) % 2 == 0 && (2 * g + 1) % 2 == 1;
  }

  /**
   * Read as bytes, the 4-byte group `g` (at byte offset 4g) is `Y0 U Y1 V`
   * of pixels 2g and 2g+1.
   */
  lemma {:induction false} GroupBytes(img: seq<u16>, g: int)
    requires 0 <= g && 2 * g + 1 < |img|
    ensures ByteAt(img, 4 * g) == Low(img[2 * g]) && ByteAt(img, 4 * g + 1) == High(img[2 * g])
    ensures ByteAt(img, 4 * g + 2) == Low(img[2 * g + 1]) && ByteAt(img, 4 * g + 3) == High(img[2 * g + 1])
  {
    assert (4 * g) / 2 == 2 * g && (4 * g + 1) / 2 == 2 * g;
    assert (4 * g + 2) / 2 == 2 * g + 1 && (4 * g + 3) / 2 == 2 * g + 1;
    assert (4 * g) % 2 == 0 && (4 * g + 1) % 2 == 1 && (4 * g + 2) % 2 == 0 && (4 * g + 3) % 2 == 1;
  }

  /**
   * The bytes the inner loop of `yuyv2rgb` reads from group `g` of the
   * first `n` words, `Y0 U Y1 V`, are the YUV of pixels 2g and 2g+1.
   */
  lemma {:induction false} GroupYuv(yuyv: seq<u16>, n: int, g: int)
    requires n % 2 == 0 && n <= |yuyv| && 0 <= g && 2 * g + 1 < n
    ensures PixelYuv(yuyv[..n], 2 * g) == Yuv(ByteAt(yuyv, 4 * g), ByteAt(yuyv, 4 * g + 1), ByteAt(yuyv, 4 * g + 3))
    ensures PixelYuv(yuyv[..n], 2 * g + 1) == Yuv(ByteAt(yuyv, 4 * g + 2), ByteAt(yuyv, 4 * g + 1), ByteAt(yuyv, 4 * g + 3))
  {
    var img := yuyv[..n];
    assert img[2 * g] == yuyv[2 * g] && img[2 * g + 1] == yuyv[2 * g + 1];
    GroupBytes(yuyv, g);
    PairSharesChroma(img, g);
  }

  /** The triple at `3p` of an output buffer holds `c`. */
  predicate RgbAt(out: seq<byte>, p: int, c: Rgb)
  {
    0 <= 3 * p && 3 * p + 2 < |out|
    && out[3 * p] == c.red && out[3 * p + 1] == c.green && out[3 * p + 2] == c.blue
  }

  /**
   * Pixels `from .. to` of `img` are stored in `out`, each converted by
   * `conv` from its YUV.
   */
  predicate Converted(out: seq<byte>, img: seq<u16>, from: int, to: int, conv: (int, int, int) -> Rgb)
    requires |img| % 2 == 0 && 0 <= from && to <= |img|
  {
    forall p :: from <= p < to ==>
      var t := PixelYuv(img, p); RgbAt(out, p, conv(t.y, t.u, t.v))
  }

  /** A converted run inside an unchanged prefix of the output stays converted. */
  lemma ConvertedKept(before: seq<byte>, after: seq<byte>, img: seq<u16>, from: int, to: int, len: int,
                      conv: (int, int, int) -> Rgb)
    requires |img| % 2 == 0 && 0 <= from && to <= |img| && 0 <= 3 * to <= len
    requires len <= |before| && len <= |after| && before[..len] == after[..len]
    requires Converted(before, img, from, to, conv)
    ensures Converted(after, img, from, to, conv)
  {
    forall p | from <= p < to
      ensures var t := PixelYuv(img, p); RgbAt(after, p, conv(t.y, t.u, t.v))
    {
      var t := PixelYuv(img, p);
      assert RgbAt(before, p, conv(t.y, t.u, t.v));
      assert before[3 * p] == before[..len][3 * p] && after[3 * p] == after[..len][3 * p];
      assert before[3 * p + 1] == before[..len][3 * p + 1] && after[3 * p + 1] == after[..len][3 * p + 1];
      assert before[3 * p + 2] == before[..len][3 * p + 2] && after[3 * p + 2] == after[..len][3 * p + 2];
    }
  }

  /** Two adjacent converted runs make one. */
  lemma ConvertedJoin(out: seq<byte>, img: seq<u16>, from: int, mid: int, to: int, conv: (int, int, int) -> Rgb)
    requires |img| % 2 == 0 && 0 <= from <= mid <= to <= |img|
    requires Converted(out, img, from, mid, conv) && Converted(out, img, mid, to, conv)
    ensures Converted(out, img, from, to, conv)
  {
    forall p | from <= p < to
      ensures var t := PixelYuv(img, p); RgbAt(out, p, conv(t.y, t.u, t.v))
    {
      var t := PixelYuv(img, p);
      if p < mid {
        assert RgbAt(out, p, conv(t.y, t.u, t.v));
      } else {
        assert RgbAt(out, p, conv(t.y, t.u, t.v));
      }
    }
  }

  // ---------------------------------------------------------------------
  // The converters
  // ---------------------------------------------------------------------

  /** Row `r` of a `w`-pixel-wide image lies inside the first `w*h` pixels. */
  lemma {:induction false} RowFits(r: int, w: int, h: int)
    requires 0 <= r < h && 0 < w
    ensures 0 <= r * w && r * w + w <= w * h && (r + 1) * w == r * w + w
    ensures w % 2 == 0 ==> (r * w) % 2 == 0
  {
    assert r * w + w == (r + 1) * w;
    assert (r + 1) * w <= h * w;
    if w % 2 == 0 {
      assert r * w == 2 * (r * (w / 2));
    }
  }

  /**
   * `yuyv2gray`: byte `r*w+c` of `o` becomes the luma (low byte) of word
   * `r*w+c`, for every row `r < h` and column `c < w`; nothing else is written.
   */
  method YuyvToGray(yuyv: seq<u16>, w: int, h: int, o: array<byte>)
    requires Pixels(w, h) <= |yuyv| && Pixels(w, h) <= o.Length
    modifies o
    ensures forall i :: 0 <= i < Pixels(w, h) ==> o[i] == Low(yuyv[i])
    ensures forall i :: Pixels(w, h) <= i < o.Length ==> o[i] == old(o[i])
  {
    var r := 0;
    while r < h
      invariant 0 <= r && (0 <= h ==> r <= h)
      invariant 0 < w ==> 0 <= r * w <= Pixels(w, h)
      invariant forall i :: 0 <= i < (if w > 0 then r * w else 0) ==> o[i] == Low(yuyv[i])
      invariant forall i :: (if w > 0 then r * w else 0) <= i < o.Length ==> o[i] == old(o[i])
    {
      var c := 0;
      if 0 < w {
        RowFits(r, w, h);
      }
      while c < w
        invariant 0 <= c && (0 < w ==> c <= w)
        invariant forall i :: 0 <= i < (if w > 0 then r * w + c else 0) ==> o[i] == Low(yuyv[i])
        invariant forall i :: (if w > 0 then r * w + c else 0) <= i < o.Length ==> o[i] == old(o[i])
      {
        o[r * w + c] := Low(yuyv[r * w + c]);
        c := c + 1;
      }
      assert 0 < w ==> r * w + w == (r + 1) * w;
      r := r + 1;
    }
  }

  /** Equal suffixes from `i` are equal from any later `j`. */
  lemma SuffixEq(a: seq<byte>, b: seq<byte>, i: int, j: int)
    requires 0 <= i <= j <= |a| && |a| == |b| && a[i..] == b[i..]
    ensures a[j..] == b[j..]
  {
    assert a[j..] == a[i..][j - i..] && b[j..] == b[i..][j - i..];
  }

  /** A single stored pixel is a converted run of length one. */
  lemma ConvertedOne(out: seq<byte>, img: seq<u16>, p: int, conv: (int, int, int) -> Rgb, t: Yuv)
    requires |img| % 2 == 0 && 0 <= p < |img| && PixelYuv(img, p) == t
    requires RgbAt(out, p, conv(t.y, t.u, t.v))
    ensures Converted(out, img, p, p + 1, conv)
  {
  }

  /**
   * `YUV2RGB`'s stores: the three channels of the conversion of `(y, u, v)`
   * go to the triple of pixel `p`, `o[3p .. 3p+3)`.
   */
  method StoreRgb(conv: (int, int, int) -> Rgb, y: int, u: int, v: int, o: array<byte>, p: int)
    requires 0 <= p && 3 * p + 3 <= o.Length
    modifies o
    ensures RgbAt(o[..], p, conv(y, u, v))
    ensures o[..3 * p] == old(o[..3 * p]) && o[3 * p + 3..] == old(o[3 * p + 3..])
  {
    var rgb := conv(y, u, v);
    o[3 * p] := rgb.red;
    o[3 * p + 1] := rgb.green;
    o[3 * p + 2] := rgb.blue;
  }

  /**
   * One iteration of the inner loop of `yuyv2rgb`: the group `Y0 U Y1 V` at
   * byte offset `base` = 4g of the image becomes pixels 2g and 2g+1, which
   * share its U and V.
   */
  method ConvertGroup(conv: (int, int, int) -> Rgb, yuyv: seq<u16>, ghost n: int, ghost from: int,
                      base: int, o: array<byte>)
    requires n % 2 == 0 && n <= |yuyv| && 3 * n <= o.Length
    requires 0 <= from && base % 4 == 0 && 2 * from <= base && base / 2 + 1 < n
    requires Converted(o[..], yuyv[..n], from, base / 2, conv)
    modifies o
    ensures Converted(o[..], yuyv[..n], from, base / 2 + 2, conv)
    ensures o[..3 * (base / 2)] == old(o[..3 * (base / 2)])
    ensures o[3 * (base / 2 + 2)..] == old(o[3 * (base / 2 + 2)..])
  {
    ghost var img := yuyv[..n];
    ghost var g := base / 4;
    var q := base / 2;
    assert q == 2 * g && base == 4 * g;
    GroupYuv(yuyv, n, g);
    var y0 := ByteAt(yuyv, base + 0);
    var u := ByteAt(yuyv, base + 1);
    var y1 := ByteAt(yuyv, base + 2);
    var v := ByteAt(yuyv, base + 3);
    ghost var s0 := o[..];
    StoreRgb(conv, y0, u, v, o, q + 0);
    ghost var s1 := o[..];
    ConvertedKept(s0, s1, img, from, q, 3 * q, conv);
    ConvertedOne(s1, img, q, conv, Yuv(y0, u, v));
    StoreRgb(conv, y1, u, v, o, q + 1);
    ghost var s2 := o[..];
    ConvertedKept(s1, s2, img, from, q, 3 * q, conv);
    ConvertedKept(s1, s2, img, q, q + 1, 3 * q + 3, conv);
    ConvertedOne(s2, img, q + 1, conv, Yuv(y1, u, v));
    ConvertedJoin(s2, img, from, q, q + 1, conv);
    ConvertedJoin(s2, img, from, q + 1, q + 2, conv);
  }

  /**
   * The inner loop of `yuyv2rgb` over one row of the first `n` pixels:
   * `line` is the row's first pixel and `c` the byte offset of a `Y0 U Y1 V`
   * group within the row, whose pair of pixels is stored at `3*(line + c/2)`.
   */
  method ConvertLine(conv: (int, int, int) -> Rgb, yuyv: seq<u16>, ghost n: int, w: int, line: int, o: array<byte>)
    requires n % 2 == 0 && n <= |yuyv|
    requires 0 < w && w % 2 == 0 && 0 <= line && line % 2 == 0
    requires line + w <= n && 3 * n <= o.Length
    modifies o
    ensures Converted(o[..], yuyv[..n], line, line + w, conv)
    ensures o[..3 * line] == old(o[..3 * line]) && o[3 * (line + w)..] == old(o[3 * (line + w)..])
  {
    ghost var half, hw, k := line / 2, w / 2, 0;
    assert line == 2 * half && w == 2 * hw;
    var c := 0;
    while c < 2 * w
      invariant 0 <= k <= hw && c == 4 * k
      invariant Converted(o[..], yuyv[..n], line, line + 2 * k, conv)
      invariant o[..3 * line] == old(o[..3 * line])
      invariant o[3 * (line + 2 * k)..] == old(o[3 * (line + 2 * k)..])
    {
      assert (2 * line + c) / 2 == line + 2 * k && (2 * line + c) % 4 == 0;
      ghost var mid := o[..];
      ConvertGroup(conv, yuyv, n, line, 2 * line + c, o);
      SuffixEq(mid, old(o[..]), 3 * (line + 2 * k), 3 * (line + 2 * k + 2));
      c, k := c + 4, k + 1;
    }
  }

  /**
   * The row loop of `yuyv2rgb`, over the pixel conversion its file defines
   * (`line` is the row start `r*w`, kept as a running sum):
   * for an even width, pixel `p` of the first `w*h` goes, converted from
   * its YUV, to `o[3p .. 3p+3)`; nothing past `3*w*h` is written and no
   * word past the first `w*h` is read.
   */
  method ConvertRows(conv: (int, int, int) -> Rgb, yuyv: seq<u16>, w: int, h: int, o: array<byte>)
    requires w <= 0 || h <= 0 || w % 2 == 0
    requires Pixels(w, h) <= |yuyv| && 3 * Pixels(w, h) <= o.Length
    modifies o
    ensures Pixels(w, h) % 2 == 0
    ensures Converted(o[..], yuyv[..Pixels(w, h)], 0, Pixels(w, h), conv)
    ensures o[3 * Pixels(w, h)..] == old(o[3 * Pixels(w, h)..])
  {
    ghost var n := Pixels(w, h);
    if 0 < w && 0 < h {
      assert n == (w / 2) * h * 2;
    }
    ghost var img := yuyv[..n];
    var line, r := 0, 0;
    while r < h
      invariant 0 <= r && (0 <= h ==> r <= h)
      invariant line == if 0 < w then r * w else 0
      invariant 0 <= line <= n
      invariant Converted(o[..], img, 0, line, conv)
      invariant o[3 * line..] == old(o[3 * line..])
    {
      if 0 < w {
        RowFits(r, w, h);
        ghost var before := o[..];
        ConvertLine(conv, yuyv, n, w, line, o);
        SuffixEq(before, old(o[..]), 3 * line, 3 * (line + w));
        ConvertedKept(before, o[..], img, 0, line, 3 * line, conv);
        ConvertedJoin(o[..], img, 0, line, line + w, conv);
        line := line + w;
      }
      r := r + 1;
    }
    assert line == n;
  }

  /**
   * `yuyv2rgb`: each 4-byte group `Y0 U Y1 V` of row `r` yields two RGB
   * pixels through `YUV2RGB`, sharing the group's U and V. An odd width is
   * excluded: the last group of a row reaches into the next row, and on the
   * last row past both buffers.
   */
  method YuyvToRgb(yuyv: seq<u16>, w: int, h: int, o: array<byte>)
    requires w <= 0 || h <= 0 || w % 2 == 0
    requires Pixels(w, h) <= |yuyv| && 3 * Pixels(w, h) <= o.Length
    modifies o
    ensures Pixels(w, h) % 2 == 0
    ensures Converted(o[..], yuyv[..Pixels(w, h)], 0, Pixels(w, h), Yuv2Rgb)
    ensures o[3 * Pixels(w, h)..] == old(o[3 * Pixels(w, h)..])
  {
    ConvertRows(Yuv2Rgb, yuyv, w, h, o);
  }
}

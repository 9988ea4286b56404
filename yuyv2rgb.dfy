/**
 * yuyv2rgb.c: a stand-alone copy of the YUYV-to-RGB converter, with its own
 * `clampi` and integer `YUV2RGB`. Its row and group loops are those of
 * yuyv.c, so the model runs them through `Yuyv.ConvertRows` with this file's
 * own conversion, and proves that the copy computes what yuyv.c computes.
 */
module Yuyv2Rgb {
  import opened Common
  import Yuyv

  /** `clampi`: saturate an integer into the range of an `uint8_t`. */
  function Clampi(v: int): (r: byte)
    ensures 0 <= v <= 255 ==> r == v
    ensures v < 0 ==> r == 0
    ensures v > 255 ==> r == 255
  {
    if v < 0 then 0 else if v > 255 then 255 else v
  }

  /**
   * The integer branch of this file's `YUV2RGB`: C = y-16, D = u-128,
   * E = v-128; red from C and E, green from all three, blue from C and D,
   * each `(... + 128) >> 8` and clamped.
   */
  function Yuv2Rgb(y: int, u: int, v: int): Yuyv.Rgb
  {
    var c := y - 16;
    var d := u - 128;
    var e := v - 128;
    Yuyv.Rgb(Clampi(Yuyv.Shr8(298 * c + 409 * e + 128)),
             Clampi(Yuyv.Shr8(298 * c - 100 * d - 208 * e + 128)),
             Clampi(Yuyv.Shr8(298 * c + 516 * d + 128)))
  }

  /** This file's clamp and conversion agree with yuyv.c's on every input. */
  lemma {:induction false} SameConversion(y: int, u: int, v: int)
    ensures Yuv2Rgb(y, u, v) == Yuyv.Yuv2Rgb(y, u, v)
  {
    var c, d, e := y - 16, u - 128, v - 128;
    assert Clampi(Yuyv.Shr8(298 * c + 409 * e + 128)) == Yuyv.Clampi(Yuyv.Shr8(298 * c + 409 * e + 128));
    assert Clampi(Yuyv.Shr8(298 * c - 100 * d - 208 * e + 128))
        == Yuyv.Clampi(Yuyv.Shr8(298 * c - 100 * d - 208 * e + 128));
    assert Clampi(Yuyv.Shr8(298 * c + 516 * d + 128)) == Yuyv.Clampi(Yuyv.Shr8(298 * c + 516 * d + 128));
  }

  /** An image converted with this file's `YUV2RGB` is the one yuyv.c produces. */
  lemma SameImage(out: seq<byte>, img: seq<u16>, from: int, to: int)
    requires |img| % 2 == 0 && 0 <= from && to <= |img|
    requires Yuyv.Converted(out, img, from, to, Yuv2Rgb)
    ensures Yuyv.Converted(out, img, from, to, Yuyv.Yuv2Rgb)
  {
    forall p | from <= p < to
      ensures var t := Yuyv.PixelYuv(img, p); Yuyv.RgbAt(out, p, Yuyv.Yuv2Rgb(t.y, t.u, t.v))
    {
      var t := Yuyv.PixelYuv(img, p);
      assert Yuyv.RgbAt(out, p, Yuv2Rgb(t.y, t.u, t.v));
      SameConversion(t.y, t.u, t.v);
    }
  }

  /**
   * This file's `yuyv2rgb`: for an even width, pixel `p` of the first `w*h`
   * is stored, converted, at `o[3p .. 3p+3)`, exactly as yuyv.c's
   * `yuyv2rgb` stores it; nothing past `3*w*h` is written.
   */
  method YuyvToRgb(yuyv: seq<u16>, w: int, h: int, o: array<byte>)
    requires w <= 0 || h <= 0 || w % 2 == 0
    requires Yuyv.Pixels(w, h) <= |yuyv| && 3 * Yuyv.Pixels(w, h) <= o.Length
    modifies o
    ensures Yuyv.Pixels(w, h) % 2 == 0
    ensures Yuyv.Converted(o[..], yuyv[..Yuyv.Pixels(w, h)], 0, Yuyv.Pixels(w, h), Yuv2Rgb)
    ensures Yuyv.Converted(o[..], yuyv[..Yuyv.Pixels(w, h)], 0, Yuyv.Pixels(w, h), Yuyv.Yuv2Rgb)
    ensures o[3 * Yuyv.Pixels(w, h)..] == old(o[3 * Yuyv.Pixels(w, h)..])
  {
    Yuyv.ConvertRows(Yuv2Rgb, yuyv, w, h, o);
    SameImage(o[..], yuyv[..Yuyv.Pixels(w, h)], 0, Yuyv.Pixels(w, h));
  }
}

/**
 * fourcc.c: conversion between a V4L2 four-character code held as text
 * (four `char`s, lowest byte first) and the 32-bit integer the driver uses.
 *
 * `char` is signed on the platforms the library targets, so `s[0]` is
 * sign-extended before it is or-ed into the result; `s[1]`..`s[3]` are
 * masked to their own byte after the shift.  The model keeps that.
 */
module Fourcc {

  /** Byte `i` of a word (0 the lowest), as `(x >> 8*i) & 0xff` extracts it. */
  function ByteOf(x: bv32, i: nat): bv8
    requires i < 4
  {
    if i == 0 then (x & 0xFF) as bv8
    else if i == 1 then ((x >> 8) & 0xFF) as bv8
    else if i == 2 then ((x >> 16) & 0xFF) as bv8
    else ((x >> 24) & 0xFF) as bv8
  }

  /** Four bytes placed lowest first into one word. */
  function Pack(b0: bv8, b1: bv8, b2: bv8, b3: bv8): (x: bv32)
    ensures ByteOf(x, 0) == b0 && ByteOf(x, 1) == b1
    ensures ByteOf(x, 2) == b2 && ByteOf(x, 3) == b3
  {
    (b0 as bv32) | ((b1 as bv32) << 8) | ((b2 as bv32) << 16) | ((b3 as bv32) << 24)
  }

  /** A signed `char` widened to `uint32_t`: bytes >= 0x80 fill bits 8-31. */
  function SignExtend(c: bv8): (r: bv32)
    ensures (r & 0xFF) as bv8 == c
    ensures c < 0x80 ==> r == c as bv32
    ensures c >= 0x80 ==> r >> 8 == 0xFF_FFFF
  {
    if c < 0x80 then c as bv32 else (c as bv32) | 0xFFFF_FF00
  }

  /**
   * `fourcc_string`: the four bytes of `fcc`, lowest first, then a NUL.
   */
  function FourccString(fcc: bv32): (s: seq<bv8>)
    ensures |s| == 5 && s[4] == 0
    ensures forall i :: 0 <= i < 4 ==> s[i] == ByteOf(fcc, i)
    ensures Pack(s[0], s[1], s[2], s[3]) == fcc
  {
    [ ((fcc >> 0) & 0xFF) as bv8, ((fcc >> 8) & 0xFF) as bv8,
      ((fcc >> 16) & 0xFF) as bv8, ((fcc >> 24) & 0xFF) as bv8, 0 ]
  }

  /**
   * `fourcc_integer`: the first four characters of `s` packed lowest first.
   * Only `s[0]` is not masked, so a byte >= 0x80 there spreads into the
   * upper three bytes.
   */
  function FourccInteger(s: seq<bv8>): (r: bv32)
    requires |s| >= 4
    ensures s[0] < 0x80 ==> r == Pack(s[0], s[1], s[2], s[3])
    ensures s[0] >= 0x80 ==> r == Pack(s[0], 0xFF, 0xFF, 0xFF)
    ensures ByteOf(r, 0) == s[0]
  {
    var val := SignExtend(s[0]);
    var val := val | (0x0000_FF00 & (SignExtend(s[1]) << 8));
    var val := val | (0x00FF_0000 & (SignExtend(s[2]) << 16));
    val | (0xFF00_0000 & (SignExtend(s[3]) << 24))
  }

  /** Nothing past the fourth character is read. */
  lemma IntegerReadsFour(s: seq<bv8>, t: seq<bv8>)
    requires |s| >= 4 && |t| >= 4 && s[..4] == t[..4]
    ensures FourccInteger(s) == FourccInteger(t)
  {
    assert s[0] == t[0] && s[1] == t[1] && s[2] == t[2] && s[3] == t[3];
  }

  /** Integer to text and back is the identity when the low byte is ASCII. */
  lemma IntegerOfString(x: bv32)
    requires ByteOf(x, 0) < 0x80
    ensures FourccInteger(FourccString(x)) == x
  {
  }

  /** Text to integer and back reproduces the four characters when s[0] is ASCII. */
  lemma StringOfInteger(s: seq<bv8>)
    requires |s| >= 4 && s[0] < 0x80
    ensures FourccString(FourccInteger(s))[..4] == s[..4]
  {
    var r := FourccString(FourccInteger(s));
    assert r[0] == s[0] && r[1] == s[1] && r[2] == s[2] && r[3] == s[3];
  }

  /** With s[0] >= 0x80 the round trip keeps s[0] and turns the rest into 0xff. */
  lemma StringOfIntegerHighFirst(s: seq<bv8>)
    requires |s| >= 4 && s[0] >= 0x80
    ensures FourccString(FourccInteger(s)) == [s[0], 0xFF, 0xFF, 0xFF, 0]
  {
  }
}

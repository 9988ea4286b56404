/**
 * bayer.c: `ba81_to_rgb`, a bilinear demosaic of V4L2_PIX_FMT_SBGGR8 (BA81)
 * frames. The sensor's colour filter repeats
 *
 *     B G B G ...      (even rows)
 *     G R G R ...      (odd rows)
 *
 * and every interior pixel is rebuilt from its 3x3 window: the sample under
 * the pixel gives its own channel, the means of the orthogonal or diagonal
 * neighbours give the other two. What is stored is one grey byte per
 * interior pixel, the floor of the mean of the three channels; the one-pixel
 * border of the output is never written.
 */
module Bayer {
  import opened Common

  /** The colour rebuilt for one pixel, before it is averaged to grey. */
  datatype Color = Color(red: int, green: int, blue: int)

  /** Mean of two samples, rounded down as unsigned division does. */
  function Avg2(a: byte, b: byte): (m: byte)
    ensures (a <= m <= b) || (b <= m <= a)
  {
    (a + b) / 2
  }

  /** Mean of four samples, rounded down as unsigned division does. */
  function Avg4(a: byte, b: byte, c: byte, d: byte): (m: byte)
    ensures m >= a || m >= b || m >= c || m >= d
    ensures m <= a || m <= b || m <= c || m <= d
  {
    (a + b + c + d) / 4
  }

  /**
   * The colour rebuilt at cursor `k` of a frame `w` samples wide, by the
   * parity of its row and column:
   * - odd row, odd column (R site): red is the sample, green the mean of the
   *   orthogonal neighbours, blue the mean of the diagonal ones;
   * - odd row, even column (G site on a G R row): red the mean of left and
   *   right, blue the mean of up and down;
   * - even row, odd column (G site on a B G row): red the mean of up and
   *   down, blue the mean of left and right;
   * - even row, even column (B site): red the mean of the diagonals, green
   *   the mean of the orthogonal neighbours, blue the sample.
   */
  function Demosaic(buf: seq<byte>, w: int, k: int, oddRow: bool, oddCol: bool): (col: Color)
    requires 1 <= w && 0 <= k - w - 1 && k + w + 1 < |buf|
    ensures 0 <= col.red < 256 && 0 <= col.green < 256 && 0 <= col.blue < 256
    ensures oddRow && oddCol ==> col.red == buf[k]
    ensures oddRow != oddCol ==> col.green == buf[k]
    ensures !oddRow && !oddCol ==> col.blue == buf[k]
  {
    var orth := Avg4(buf[k - w], buf[k + w], buf[k - 1], buf[k + 1]);
    var diag := Avg4(buf[k - w - 1], buf[k - w + 1], buf[k + w - 1], buf[k + w + 1]);
    if oddRow && oddCol then Color(buf[k], orth, diag)
    else if oddRow then Color(Avg2(buf[k - 1], buf[k + 1]), buf[k], Avg2(buf[k - w], buf[k + w]))
    else if oddCol then Color(Avg2(buf[k - w], buf[k + w]), buf[k], Avg2(buf[k - 1], buf[k + 1]))
    else Color(diag, orth, buf[k])
  }

  /** `(uint8_t)((R+G+B)/3.0)`: for channels in 0..255, the floor of their mean. */
  function Grey(c: Color): (g: int)
    ensures g >= c.red || g >= c.green || g >= c.blue
    ensures g <= c.red || g <= c.green || g <= c.blue
  {
    (c.red + c.green + c.blue) / 3
  }

  /** Index `i` of a `w` by `h` frame lies off its one-pixel border. */
  predicate Interior(w: int, h: int, i: int)
  {
    0 < w && 0 <= i && 1 <= i / w < h - 1 && 1 <= i % w < w - 1
  }

  /** A positive multiple of a positive width is at least that width. */
  lemma MulAtLeast(w: int, d: int)
    requires 0 < w && 1 <= d
    ensures w * d >= w
  {
    assert w * d == w + w * (d - 1);
  }

  /** Row `r`, column `c` is cell `w*r + c`. */
  lemma {:induction false} DivMod(w: int, r: int, c: int)
    requires 0 < w && 0 <= r && 0 <= c < w
    ensures (w * r + c) / w == r && (w * r + c) % w == c
  {
    var i := w * r + c;
    var q, m := i / w, i % w;
    assert i == w * q + m && 0 <= m < w;
    if q < r {
      MulAtLeast(w, r - q);
      assert false;
    } else if q > r {
      MulAtLeast(w, q - r);
      assert false;
    }
  }

  /** Every sample of the 3x3 window of an interior index lies in the frame. */
  lemma {:induction false} InteriorBounds(w: int, h: int, i: int)
    requires Interior(w, h, i)
    ensures w + 1 <= i && i + w + 1 < w * h
  {
    var r, c := i / w, i % w;
    assert i == w * r + c;
    MulAtLeast(w, r);
    var d := h - 2 - r;
    assert w * h == w * r + w * d + 2 * w;
    if 0 < d {
      MulAtLeast(w, d);
    }
  }

  /**
   * The grey byte `ba81_to_rgb` stores at interior index `i` of a `w` by `h`
   * frame `buf`.
   */
  function GreyAt(buf: seq<byte>, w: int, h: int, i: int): int
    requires Interior(w, h, i) && w * h <= |buf|
  {
    InteriorBounds(w, h, i);
    Grey(Demosaic(buf, w, i, (i / w) % 2 == 1, (i % w) % 2 == 1))
  }

  /** The sample `dr` rows and `dc` columns away from cursor `k`, within its 3x3 window. */
  function Sample(buf: seq<byte>, w: int, k: int, dr: int, dc: int): byte
    requires 1 <= w && 0 <= k - w - 1 && k + w + 1 < |buf| && -1 <= dr <= 1 && -1 <= dc <= 1
  {
    buf[k + (if dr < 0 then -w else if dr > 0 then w else 0) + dc]
  }

  /**
   * Every channel of a rebuilt colour, and so its grey, lies between the
   * smallest and the largest sample of the pixel's 3x3 window.
   */
  lemma {:induction false} GreyWithinWindow(buf: seq<byte>, w: int, k: int, oddRow: bool, oddCol: bool,
                                            lo: int, hi: int)
    requires 1 <= w && 0 <= k - w - 1 && k + w + 1 < |buf|
    requires forall dr, dc :: -1 <= dr <= 1 && -1 <= dc <= 1 ==> lo <= Sample(buf, w, k, dr, dc) <= hi
    ensures var col := Demosaic(buf, w, k, oddRow, oddCol);
      lo <= col.red <= hi && lo <= col.green <= hi && lo <= col.blue <= hi
    ensures lo <= Grey(Demosaic(buf, w, k, oddRow, oddCol)) <= hi
  {
    assert lo <= Sample(buf, w, k, -1, -1) <= hi && lo <= Sample(buf, w, k, -1, 0) <= hi;
    assert lo <= Sample(buf, w, k, -1, 1) <= hi && lo <= Sample(buf, w, k, 0, -1) <= hi;
    assert lo <= Sample(buf, w, k, 0, 0) <= hi && lo <= Sample(buf, w, k, 0, 1) <= hi;
    assert lo <= Sample(buf, w, k, 1, -1) <= hi && lo <= Sample(buf, w, k, 1, 0) <= hi;
    assert lo <= Sample(buf, w, k, 1, 1) <= hi;
  }

  /** A uniform window of value `x` yields grey `x`, at every site of the pattern. */
  lemma {:induction false} FlatFieldIsGrey(buf: seq<byte>, w: int, k: int, oddRow: bool, oddCol: bool, x: int)
    requires 1 <= w && 0 <= k - w - 1 && k + w + 1 < |buf|
    requires forall dr, dc :: -1 <= dr <= 1 && -1 <= dc <= 1 ==> Sample(buf, w, k, dr, dc) == x
    ensures Demosaic(buf, w, k, oddRow, oddCol) == Color(x, x, x)
    ensures Grey(Demosaic(buf, w, k, oddRow, oddCol)) == x
  {
    GreyWithinWindow(buf, w, k, oddRow, oddCol, x, x);
  }

  /**
   * The body of the column loops of `ba81_to_rgb` at cursor `pos`: the three
   * channels by the site's rule, then the grey byte `(R+G+B)/3` it emits.
   */
  method Interpolate(buf: seq<byte>, w: int, pos: int, oddRow: bool, oddCol: bool) returns (grey: byte)
    requires 1 <= w && 0 <= pos - w - 1 && pos + w + 1 < |buf|
    ensures grey == Grey(Demosaic(buf, w, pos, oddRow, oddCol))
  {
    var red: int, green: int, blue: int;
    if oddRow {
      if oddCol {
        green := (buf[pos - w] as int + buf[pos + w] + buf[pos - 1] + buf[pos + 1]) / 4;
        blue := (buf[pos - w - 1] as int + buf[pos - w + 1] + buf[pos + w - 1] + buf[pos + w + 1]) / 4;
        red := buf[pos];
      } else {
        red := (buf[pos - 1] as int + buf[pos + 1]) / 2;
        blue := (buf[pos - w] as int + buf[pos + w]) / 2;
        green := buf[pos];
      }
    } else {
      if oddCol {
        red := (buf[pos - w] as int + buf[pos + w]) / 2;
        blue := (buf[pos - 1] as int + buf[pos + 1]) / 2;
        green := buf[pos];
      } else {
        red := (buf[pos - w - 1] as int + buf[pos - w + 1] + buf[pos + w - 1] + buf[pos + w + 1]) / 4;
        green := (buf[pos - w] as int + buf[pos + w] + buf[pos - 1] + buf[pos + 1]) / 4;
        blue := buf[pos];
      }
    }
    grey := (red + green + blue) / 3;
  }

  /**
   * The grey byte stored at column `j` of row `r`, which starts at index
   * `start`.
   */
  function RowGrey(buf: seq<byte>, w: int, start: int, r: int, j: int): int
    requires w <= start && start + 2 * w <= |buf| && 1 <= j < w - 1
  {
    Grey(Demosaic(buf, w, start + j, r % 2 == 1, j % 2 == 1))
  }

  /** Rows 1 .. h-2 start at least one row in and leave a row below them. */
  lemma {:induction false} RowFits(w: int, h: int, r: int)
    requires 0 < w && 1 <= r < h - 1
    ensures w <= w * r && w * r + 2 * w <= w * h
  {
    MulAtLeast(w, r);
    assert w * h - (w * r + 2 * w) == w * (h - r - 2);
    if h - r - 2 > 0 {
      MulAtLeast(w, h - r - 2);
    }
  }

  /**
   * Within row `r` (starting at `start`), exactly the cells strictly between
   * the first and the last column are interior, and the grey stored there is
   * the row's.
   */
  lemma {:induction false} RowCells(buf: seq<byte>, w: int, h: int, r: int, start: int, i: int)
    requires 3 <= w && 1 <= r < h - 1 && start == w * r && w * h <= |buf|
    requires start <= i < start + w
    ensures w <= start && start + 2 * w <= |buf|
    ensures Interior(w, h, i) <==> start < i < start + w - 1
    ensures Interior(w, h, i) ==> GreyAt(buf, w, h, i) == RowGrey(buf, w, start, r, i - start)
  {
    RowFits(w, h, r);
    DivMod(w, r, i - start);
  }

  /**
   * One pass of the row loop of `ba81_to_rgb` over row `r`, starting with the
   * cursor at the row's first sample `start`: step past the first column,
   * emit a grey byte for each column 1 .. w-2, step past the last column.
   * Only the row's inner cells are written; the cursor ends one row on.
   */
  method InterpolateRow(buf: seq<byte>, w: int, r: int, start: int, rgb: array<byte>) returns (next: int)
    requires 3 <= w ==> start == w * r && w <= start && start + 2 * w <= |buf| && start + w <= rgb.Length
    modifies rgb
    ensures 3 <= w ==> next == start + w
    ensures forall j :: 1 <= j < w - 1 ==> rgb[start + j] == RowGrey(buf, w, start, r, j)
    ensures forall i :: 0 <= i < rgb.Length && !(start < i < start + w - 1) ==> rgb[i] == old(rgb[i])
  {
    var pos := start + 1;
    var c := 1;
    while c < w - 1
      invariant 1 <= c && (3 <= w ==> c <= w - 1) && (w < 3 ==> c == 1)
      invariant pos == start + c
      invariant forall j :: 1 <= j < c ==> rgb[start + j] == RowGrey(buf, w, start, r, j)
      invariant forall i :: 0 <= i < rgb.Length && !(start < i < start + c) ==> rgb[i] == old(rgb[i])
    {
      var grey := Interpolate(buf, w, pos, r % 2 == 1, c % 2 == 1);
      pos := pos + 1;
      rgb[w * r + c] := grey;
      c := c + 1;
    }
    next := pos + 1;
  }

  /**
   * `ba81_to_rgb`: the cursor starts one row into `buf`; each row 1 .. h-2
   * is interpolated in turn. Every interior index `i` of `rgb` receives
   * `GreyAt(buf, w, h, i)` and every other index is left as it was. The
   * result is always 0.
   */
  method Ba81ToRgb(buf: seq<byte>, w: int, h: int, rgb: array<byte>) returns (result: int)
    requires 3 <= w && 3 <= h ==> w * h <= |buf| && w * h <= rgb.Length
    modifies rgb
    ensures result == 0
    ensures forall i :: 0 <= i < rgb.Length && Interior(w, h, i) ==> w * h <= |buf| && rgb[i] == GreyAt(buf, w, h, i)
    ensures forall i :: 0 <= i < rgb.Length && !Interior(w, h, i) ==> rgb[i] == old(rgb[i])
  {
    var pos := w;
    var r := 1;
    forall i | 0 <= i < rgb.Length && Interior(w, h, i)
      ensures pos < i
    {
      InteriorBounds(w, h, i);
    }
    while r < h - 1
      invariant 1 <= r && (3 <= h ==> r <= h - 1)
      invariant 3 <= w ==> pos == w * r
      invariant forall i :: 0 <= i < rgb.Length && Interior(w, h, i) && i < pos ==>
        w * h <= |buf| && rgb[i] == GreyAt(buf, w, h, i)
      invariant forall i :: 0 <= i < rgb.Length && !(Interior(w, h, i) && i < pos) ==> rgb[i] == old(rgb[i])
    {
      if 3 <= w {
        RowFits(w, h, r);
      }
      ghost var start := pos;
      ghost var before := rgb[..];
      pos := InterpolateRow(buf, w, r, pos, rgb);
      if 3 <= w {
        forall i | 0 <= i < rgb.Length && Interior(w, h, i) && i < pos
          ensures w * h <= |buf| && rgb[i] == GreyAt(buf, w, h, i)
        {
          if start <= i {
            RowCells(buf, w, h, r, start, i);
          }
        }
        forall i | 0 <= i < rgb.Length && !(Interior(w, h, i) && i < pos)
          ensures rgb[i] == old(rgb[i])
        {
          if start <= i < pos {
            RowCells(buf, w, h, r, start, i);
          }
          assert rgb[i] == before[i];
        }
      }
      r := r + 1;
    }
    if 3 <= w && 3 <= h {
      assert pos == w * h - w;
      forall i | 0 <= i < rgb.Length && Interior(w, h, i)
        ensures i < pos
      {
        InteriorBounds(w, h, i);
      }
    }
    return 0;
  }
}

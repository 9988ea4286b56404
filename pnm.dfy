/**
 * pnm.c: the plain ("P3") PPM writer of Netpbm ppm(5). After a header like
 * the PGM one, every row of the image is one line of text: for each pixel its
 * red, green and blue samples as decimals, the pixels separated by a single
 * space, the line ended by a newline.
 */
module Pnm {
  import opened Common
  import opened Decimal
  import opened Stdio
  import Pgm

  /** "P3" */
  const P3: seq<byte> := [80, 51]

  /** The number of passes of `for (i = 0; i < n; i++)`. */
  function Count(n: int): nat
  {
    if n > 0 then n else 0
  }

  /**
   * The header `pnm_write` prints: `"P3\n%d %d\n# %s\n255\n"` with a comment,
   * `"P3\n%d %d\n255\n"` without one.
   */
  function Header(w: int, h: int, comment: Option<seq<byte>>): seq<byte>
  {
    P3 + [NEWLINE] + Format(w) + [SPACE] + Format(h) + [NEWLINE] + Pgm.CommentLine(comment) + Pgm.MAXVAL + [NEWLINE]
  }

  /**
   * `"%d %d %d"` of a pixel's red, green and blue samples; `%d` of a sample,
   * never negative, is its digits (see `SampleText`).
   */
  function PixelText(red: byte, grn: byte, blu: byte): seq<byte>
  {
    Digits(red) + [SPACE] + Digits(grn) + [SPACE] + Digits(blu)
  }

  /** The text of pixel `k`, whose samples are `rgb[3k .. 3k+3)`. */
  function Triple(rgb: seq<byte>, k: nat): seq<byte>
    requires 3 * k + 3 <= |rgb|
  {
    PixelText(rgb[3 * k], rgb[3 * k + 1], rgb[3 * k + 2])
  }

  /** The first `c` pixels of the row starting at pixel `start`, a space before all but the first. */
  function Row(rgb: seq<byte>, start: nat, c: nat): seq<byte>
    requires 3 * (start + c) <= |rgb|
  {
    if c == 0 then []
    else Row(rgb, start, c - 1) + ((if c == 1 then [] else [SPACE]) + Triple(rgb, start + c - 1))
  }

  /** Line `r` of the image: its `w` pixels, then a newline. */
  function Line(rgb: seq<byte>, w: int, r: nat): seq<byte>
    requires 3 * (Count(w) * r + Count(w)) <= |rgb|
  {
    Row(rgb, Count(w) * r, Count(w)) + [NEWLINE]
  }

  /** The first `r` lines of the image. */
  function Body(rgb: seq<byte>, w: int, r: nat): seq<byte>
    requires 3 * (Count(w) * r) <= |rgb|
  {
    if r == 0 then []
    else
      assert Count(w) * (r - 1) + Count(w) == Count(w) * r;
      Body(rgb, w, r - 1) + Line(rgb, w, r - 1)
  }

  /** Everything `pnm_write` means to put on the stream. */
  function Text(rgb: seq<byte>, w: int, h: int, comment: Option<seq<byte>>): seq<byte>
    requires 3 * (Count(w) * Count(h)) <= |rgb|
  {
    Header(w, h, comment) + Body(rgb, w, Count(h))
  }

  /** Row `r` of a `w`-by-`h` image, `r < h`, lies inside the image. */
  lemma RowInside(w: nat, h: nat, r: nat)
    requires r < h
    ensures w * r + w == w * (r + 1) <= w * h
  {
    assert w * h - w * (r + 1) == w * (h - r - 1);
  }

  /**
   * One pass of `pnm_write`'s inner loop: read the pixel's red, green and
   * blue samples from `p` on, print `sep` and their text, ignore whether the
   * print succeeds, and step past the pixel.
   */
  method PutPixel(fp: OutStream, rgb: seq<byte>, p: nat, sep: seq<byte>, ghost start: nat, ghost c: nat, ghost d0: seq<byte>)
    returns (next: nat)
    requires fp.Valid() && |d0| <= fp.capacity
    requires p == 3 * (start + c) && 3 * (start + c + 1) <= |rgb|
    requires sep == if c == 0 then [] else [SPACE]
    requires fp.data == Fill(d0, Row(rgb, start, c), fp.capacity)
    modifies fp
    ensures fp.Valid() && fp.data == Fill(d0, Row(rgb, start, c + 1), fp.capacity)
    ensures next == p + 3
  {
    var red, grn, blu := rgb[p], rgb[p + 1], rgb[p + 2];
    next := p + 3;
    var text := sep + PixelText(red, grn, blu);
    var printed := fp.Print(text);
    FillAppend(d0, Row(rgb, start, c), text, fp.capacity);
  }

  /**
   * One row of `pnm_write`: the `w` pixels from sample `p` on, `sep` empty
   * before the first and a space before the others, then a newline whose
   * `fputc` result is not looked at. Returns where the next row starts.
   */
  method PutRow(fp: OutStream, rgb: seq<byte>, w: int, p: nat, ghost start: nat) returns (next: nat)
    requires fp.Valid() && p == 3 * start && 3 * (start + Count(w)) <= |rgb|
    modifies fp
    ensures fp.Valid() && fp.data == Fill(old(fp.data), Row(rgb, start, Count(w)) + [NEWLINE], fp.capacity)
    ensures next == 3 * (start + Count(w))
  {
    ghost var d0 := fp.data;
    next := p;
    var sep: seq<byte> := [];
    var c := 0;
    while c < w
      invariant 0 <= c <= Count(w) && next == 3 * (start + c)
      invariant sep == if c == 0 then [] else [SPACE]
      invariant fp.Valid() && fp.data == Fill(d0, Row(rgb, start, c), fp.capacity)
    {
      next := PutPixel(fp, rgb, next, sep, start, c, d0);
      sep := [SPACE];
      c := c + 1;
    }
    assert c == Count(w);
    ghost var row := Row(rgb, start, c);
    var put := fp.Putc(NEWLINE);
    FillAppend(d0, row, [NEWLINE], fp.capacity);
  }

  /** The rows of `pnm_write`, one line each, after the header. */
  method PutRows(fp: OutStream, rgb: seq<byte>, w: int, h: int)
    requires fp.Valid() && 3 * (Count(w) * Count(h)) <= |rgb|
    modifies fp
    ensures fp.Valid() && fp.data == Fill(old(fp.data), Body(rgb, w, Count(h)), fp.capacity)
  {
    ghost var d0 := fp.data;
    var p := 0;
    var r := 0;
    while r < h
      invariant 0 <= r <= Count(h) && p == 3 * (Count(w) * r)
      invariant 3 * (Count(w) * r) <= |rgb|
      invariant fp.Valid() && fp.data == Fill(d0, Body(rgb, w, r), fp.capacity)
    {
      RowInside(Count(w), Count(h), r);
      ghost var done := Body(rgb, w, r);
      ghost var line := Line(rgb, w, r);
      p := PutRow(fp, rgb, w, p, Count(w) * r);
      FillAppend(d0, done, line, fp.capacity);
      r := r + 1;
    }
    assert r == Count(h);
  }

  /**
   * `pnm_write`: print the header and return -1 if that fails; otherwise
   * print the rows and return 0. The stream receives as much of the text as
   * fits.
   */
  method PnmWrite(fp: OutStream, rgb: seq<byte>, w: int, h: int, comment: Option<seq<byte>>) returns (result: int)
    requires fp.Valid() && 3 * (Count(w) * Count(h)) <= |rgb|
    modifies fp
    ensures fp.Valid() && fp.data == Fill(old(fp.data), Text(rgb, w, h, comment), fp.capacity)
    ensures result == if |old(fp.data)| + |Header(w, h, comment)| <= fp.capacity then 0 else -1
  {
    ghost var d0 := fp.data;
    ghost var body := Body(rgb, w, Count(h));
    var hd := Header(w, h, comment);
    var wr := fp.Print(hd);
    if wr < 0 {
      FillFull(fp.data, body, fp.capacity);
      FillAppend(d0, hd, body, fp.capacity);
      return -1;
    }
    PutRows(fp, rgb, w, h);
    FillAppend(d0, hd, body, fp.capacity);
    return 0;
  }

  /** The position of the last space in `s`, or -1 when there is none. */
  function LastSpace(s: seq<byte>): (k: int)
    ensures -1 <= k < |s|
    ensures 0 <= k ==> s[k] == SPACE
    ensures forall i :: k < i < |s| ==> s[i] != SPACE
  {
    if |s| == 0 then -1
    else if s[|s| - 1] == SPACE then |s| - 1
    else LastSpace(s[..|s| - 1])
  }

  /** The fields of `s` between single spaces, as a reader splitting on ' ' sees them. */
  function Split(s: seq<byte>): (fields: seq<seq<byte>>)
    ensures 1 <= |fields|
    decreases |s|
  {
    var k := LastSpace(s);
    if k < 0 then [s] else Split(s[..k]) + [s[k + 1..]]
  }

  predicate SpaceFree(v: seq<byte>)
  {
    forall i :: 0 <= i < |v| ==> v[i] != SPACE
  }

  /** A field after a space splits off as the last field. */
  lemma SplitSnoc(x: seq<byte>, v: seq<byte>)
    requires SpaceFree(v)
    ensures Split(x + [SPACE] + v) == Split(x) + [v]
  {
    var s := x + [SPACE] + v;
    assert s[|x|] == SPACE;
    var k := LastSpace(s);
    assert forall i :: |x| < i < |s| ==> s[i] == v[i - |x| - 1];
    assert s[..k] == x && s[k + 1..] == v;
  }

  /** Text with no space is one field. */
  lemma SplitWord(v: seq<byte>)
    requires SpaceFree(v)
    ensures Split(v) == [v]
  {
    assert LastSpace(v) < 0;
  }

  /** A sample prints as one to three digits that `atoi` reads back. */
  lemma SampleText(b: byte)
    ensures 1 <= |Digits(b)| <= 3 && SpaceFree(Digits(b))
    ensures forall i :: 0 <= i < |Digits(b)| ==> IsDigit(Digits(b)[i])
    ensures Atoi(Digits(b)) == b
  {
    assert Pow10(3) == 1000;
    DigitsLength(b, 3);
    AtoiFormat(b);
  }

  // Helpers: generic regroupings of sequences used by the proofs below.
  // They state nothing about pnm.c.

  lemma DropLast<T>(ws: seq<T>, v: T)
    ensures (ws + [v])[..|ws|] == ws
  {
  }

  lemma InitLast<T>(ws: seq<T>)
    requires 1 <= |ws|
    ensures ws[..|ws| - 1] + [ws[|ws| - 1]] == ws
  {
  }

  lemma AppendAt<T>(a: seq<T>, b: seq<T>, i: int)
    requires 0 <= i < |a| + |b|
    ensures (a + b)[i] == if i < |a| then a[i] else b[i - |a|]
  {
  }

  lemma Triple3<T>(ws: seq<T>, a: T, b: T, d: T)
    ensures ws + [a, b, d] == ws + [a] + [b] + [d]
  {
  }

  lemma Flatten<T>(x: seq<T>, s: seq<T>, a: seq<T>, b: seq<T>, c: seq<T>)
    ensures x + (s + (a + s + b + s + c)) == x + s + a + s + b + s + c
  {
  }

  lemma Unwrap<T>(x: seq<T>, s: seq<T>, y: seq<T>)
    requires x == [] && s == []
    ensures x + (s + y) == y
  {
  }

  lemma First3<T>(ws: seq<T>, a: T, b: T, d: T)
    requires ws == []
    ensures ws + [a, b, d] == [a] + [b] + [d]
  {
  }

  /** Words joined by single spaces. */
  function Joined(ws: seq<seq<byte>>): seq<byte>
  {
    if |ws| == 0 then []
    else if |ws| == 1 then ws[0]
    else Joined(ws[..|ws| - 1]) + [SPACE] + ws[|ws| - 1]
  }

  /** One more word joins after one more space. */
  lemma JoinedSnoc(ws: seq<seq<byte>>, v: seq<byte>)
    requires 1 <= |ws|
    ensures Joined(ws + [v]) == Joined(ws) + [SPACE] + v
  {
    DropLast(ws, v);
  }

  /** Splitting undoes joining, for words without spaces. */
  lemma {:induction false} SplitJoined(ws: seq<seq<byte>>)
    requires 1 <= |ws| && forall i :: 0 <= i < |ws| ==> SpaceFree(ws[i])
    ensures Split(Joined(ws)) == ws
    decreases |ws|
  {
    if |ws| == 1 {
      SplitWord(ws[0]);
    } else {
      var init := ws[..|ws| - 1];
      SplitJoined(init);
      SplitSnoc(Joined(init), ws[|ws| - 1]);
      InitLast(ws);
    }
  }

  /** The `%d` texts of the samples of the first `c` pixels from pixel `start` on, in order. */
  function Words(rgb: seq<byte>, start: nat, c: nat): (ws: seq<seq<byte>>)
    requires 3 * (start + c) <= |rgb|
    ensures |ws| == 3 * c
  {
    if c == 0 then []
    else
      var k := start + c - 1;
      Words(rgb, start, c - 1) + [Digits(rgb[3 * k]), Digits(rgb[3 * k + 1]), Digits(rgb[3 * k + 2])]
  }

  /** Word `i` is the text of sample `3 start + i`. */
  lemma {:induction false} WordsAt(rgb: seq<byte>, start: nat, c: nat)
    requires 3 * (start + c) <= |rgb|
    ensures forall i :: 0 <= i < 3 * c ==> Words(rgb, start, c)[i] == Digits(rgb[3 * start + i])
    decreases c
  {
    if c > 0 {
      WordsAt(rgb, start, c - 1);
      var ws := Words(rgb, start, c - 1);
      var k := start + c - 1;
      var last := [Digits(rgb[3 * k]), Digits(rgb[3 * k + 1]), Digits(rgb[3 * k + 2])];
      forall i | 0 <= i < 3 * c
        ensures Words(rgb, start, c)[i] == Digits(rgb[3 * start + i])
      {
        AppendAt(ws, last, i);
      }
    }
  }

  /** A first pixel's three texts, joined. */
  lemma JoinFirst(ws: seq<seq<byte>>, x: seq<byte>, sep: seq<byte>, da: seq<byte>, db: seq<byte>, dd: seq<byte>)
    requires ws == [] && x == [] && sep == []
    ensures x + (sep + (da + [SPACE] + db + [SPACE] + dd)) == Joined(ws + [da, db, dd])
  {
    First3(ws, da, db, dd);
    assert Joined([da]) == da;
    JoinedSnoc([da], db);
    JoinedSnoc([da] + [db], dd);
    Unwrap(x, sep, da + [SPACE] + db + [SPACE] + dd);
  }

  /** A further pixel's three texts, joined after a space. */
  lemma JoinNext(ws: seq<seq<byte>>, x: seq<byte>, da: seq<byte>, db: seq<byte>, dd: seq<byte>)
    requires 1 <= |ws| && x == Joined(ws)
    ensures x + ([SPACE] + (da + [SPACE] + db + [SPACE] + dd)) == Joined(ws + [da, db, dd])
  {
    Triple3(ws, da, db, dd);
    JoinedSnoc(ws, da);
    JoinedSnoc(ws + [da], db);
    JoinedSnoc(ws + [da] + [db], dd);
    Flatten(x, [SPACE], da, db, dd);
  }

  /** The text of the first `c` pixels of a row is their samples' texts joined by single spaces. */
  lemma {:induction false} RowJoined(rgb: seq<byte>, start: nat, c: nat)
    requires 1 <= c && 3 * (start + c) <= |rgb|
    ensures Row(rgb, start, c) == Joined(Words(rgb, start, c))
    decreases c
  {
    var k := start + c - 1;
    var da, db, dd := Digits(rgb[3 * k]), Digits(rgb[3 * k + 1]), Digits(rgb[3 * k + 2]);
    if c == 1 {
      JoinFirst(Words(rgb, start, 0), Row(rgb, start, 0), [], da, db, dd);
    } else {
      RowJoined(rgb, start, c - 1);
      JoinNext(Words(rgb, start, c - 1), Row(rgb, start, c - 1), da, db, dd);
    }
  }

  /** A sample's digits hold no space. */
  lemma DigitsSpaceFree(b: byte)
    ensures SpaceFree(Digits(b))
  {
  }

  /**
   * Split at its spaces, the text of the first `c` pixels of a row gives
   * back the `%d` text of their `3c` samples, one field each, in order.
   */
  lemma RowSplits(rgb: seq<byte>, start: nat, c: nat)
    requires 1 <= c && 3 * (start + c) <= |rgb|
    ensures |Split(Row(rgb, start, c))| == 3 * c
    ensures forall i :: 0 <= i < 3 * c ==> Split(Row(rgb, start, c))[i] == Digits(rgb[3 * start + i])
  {
    var ws := Words(rgb, start, c);
    WordsAt(rgb, start, c);
    forall i | 0 <= i < |ws|
      ensures SpaceFree(ws[i])
    {
      DigitsSpaceFree(rgb[3 * start + i]);
    }
    RowJoined(rgb, start, c);
    SplitJoined(ws);
  }

  /** No pixel text contains a newline, so each row is exactly one line. */
  lemma {:induction false} RowIsOneLine(rgb: seq<byte>, start: nat, c: nat)
    requires 3 * (start + c) <= |rgb|
    ensures forall i :: 0 <= i < |Row(rgb, start, c)| ==> Row(rgb, start, c)[i] != NEWLINE
    decreases c
  {
    if c > 0 {
      RowIsOneLine(rgb, start, c - 1);
    }
  }

  /**
   * What a reader of line `r` sees: the line ends at its only newline, and
   * the text before it splits at single spaces into `3w` fields, each one to
   * three digits that `atoi` turns back into the sample written, in the order
   * the samples of that row lie in `rgb`.
   */
  lemma LineReadsBack(rgb: seq<byte>, w: int, r: nat)
    requires 1 <= w && 3 * (Count(w) * r + Count(w)) <= |rgb|
    ensures var line := Line(rgb, w, r);
      line[|line| - 1] == NEWLINE && forall i :: 0 <= i < |line| - 1 ==> line[i] != NEWLINE
    ensures var line := Line(rgb, w, r);
      var fields := Split(line[..|line| - 1]);
      |fields| == 3 * w &&
      forall i :: 0 <= i < 3 * w ==> 1 <= |fields[i]| <= 3 && Atoi(fields[i]) == rgb[3 * (w * r) + i]
  {
    var start := w * r;
    var row := Row(rgb, start, w);
    assert Line(rgb, w, r)[..|Line(rgb, w, r)| - 1] == row;
    RowIsOneLine(rgb, start, w);
    RowSplits(rgb, start, w);
    forall i | 0 <= i < 3 * w
      ensures 1 <= |Split(row)[i]| <= 3 && Atoi(Split(row)[i]) == rgb[3 * start + i]
    {
      SampleText(rgb[3 * start + i]);
    }
  }

  /** Helper: a generic regrouping used by HeaderLikePgm. */
  lemma Reheaded<T>(p: seq<T>, q: seq<T>, a: seq<T>, b: seq<T>, c: seq<T>, d: seq<T>, e: seq<T>, f: seq<T>, g: seq<T>, h: seq<T>)
    ensures p + a + b + c + d + e + f + g + h == p + (q + a + b + c + d + e + f + g + h)[|q|..]
  {
    var t := a + b + c + d + e + f + g + h;
    assert q + a + b + c + d + e + f + g + h == q + t;
    assert (q + t)[|q|..] == t;
  }

  /** The plain PPM header differs from the PGM one only in its magic number. */
  lemma HeaderLikePgm(w: int, h: int, comment: Option<seq<byte>>)
    ensures Header(w, h, comment) == P3 + Pgm.Header(w, h, comment)[2..]
  {
    Reheaded(P3, Pgm.P5, [NEWLINE], Format(w), [SPACE], Format(h), [NEWLINE], Pgm.CommentLine(comment), Pgm.MAXVAL, [NEWLINE]);
  }
}

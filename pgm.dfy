/**
 * pgm.c: the raw ("P5") PGM writer of Netpbm pgm(5) and the loader that
 * reads such files back. The header is text: the magic number, the width
 * and height, an optional comment line, and the maximum sample value 255;
 * the samples follow as raw bytes.
 *
 * Streams are those of module Stdio: an output stream that holds at most a
 * given number of bytes, an input stream over the bytes of the file.
 */
module Pgm {
  import opened Common
  import opened Decimal
  import opened Stdio

  /** "P5" */
  const P5: seq<byte> := [80, 53]
  /** "255", the maximum sample value every written file declares. */
  const MAXVAL: seq<byte> := [50, 53, 53]
  /** `char buf[32]` holds a token of at most 31 bytes and its NUL. */
  const TOKEN_LIMIT: nat := 31

  /** How a call ends: it returns a value, or `errx` ends the process with a status. */
  datatype Outcome = Return(value: int) | Exit(status: int)

  /**
   * The comment line, present only when the comment is not NULL; `%s`
   * prints the comment up to its first NUL.
   */
  function CommentLine(comment: Option<seq<byte>>): seq<byte>
  {
    match comment
    case None => []
    case Some(c) => [HASH, SPACE] + CString(c) + [NEWLINE]
  }

  /** `%s` stops at the first NUL: whatever follows it is not printed. */
  lemma CommentStopsAtNul(c: seq<byte>, d: seq<byte>)
    requires forall i :: 0 <= i < |c| ==> c[i] != 0
    ensures CommentLine(Some(c + [0] + d)) == CommentLine(Some(c))
  {
    var s := c + [0] + d;
    CStringAtNul(s, |c|);
    assert s[..|c|] == c;
    CStringOfWord(c);
  }

  /** The comment, as printed, holds no line end: it stays on one line. */
  predicate OneLine(comment: Option<seq<byte>>)
  {
    comment.Some? ==> forall i :: 0 <= i < |CString(comment.value)| ==> !IsEol(CString(comment.value)[i])
  }

  /**
   * The header `pgm_write` prints: `"P5\n%d %d\n# %s\n255\n"` with a comment,
   * `"P5\n%d %d\n255\n"` without one.
   */
  function Header(w: int, h: int, comment: Option<seq<byte>>): (hd: seq<byte>)
    ensures 11 <= |hd|
  {
    P5 + [NEWLINE] + Format(w) + [SPACE] + Format(h) + [NEWLINE] + CommentLine(comment) + MAXVAL + [NEWLINE]
  }

  /**
   * The buffer holds a sample for every one of `n` steps of `stride`; a
   * stride of 0 reads the first byte `n` times, and with no samples to
   * write the stride is never used.
   */
  predicate Fits(buf: seq<byte>, n: int, stride: int)
  {
    0 <= n && (n == 0 || (0 <= stride && (n - 1) * stride < |buf|))
  }

  lemma MulMono(a: int, b: int, m: int)
    requires 0 <= a <= b && 0 <= m
    ensures a * m <= b * m
  {
    assert b * m - a * m == (b - a) * m;
  }

  lemma MulSucc(k: int, m: int)
    ensures (k + 1) * m == k * m + m
  {
  }

  /** The `n` samples taken one every `stride` bytes of `buf`. */
  function Payload(buf: seq<byte>, n: int, stride: int): (p: seq<byte>)
    requires Fits(buf, n, stride)
    ensures |p| == n
    ensures forall k :: 0 <= k < n ==> k * stride < |buf| && p[k] == buf[k * stride]
    decreases n
  {
    if n == 0 then []
    else
      assert Fits(buf, n - 1, stride) by {
        if n > 1 { MulMono(n - 2, n - 1, stride); }
      }
      Payload(buf, n - 1, stride) + [buf[(n - 1) * stride]]
  }

  /** With stride 1 the payload is the first `n` bytes of the buffer. */
  lemma StrideOnePayload(buf: seq<byte>, n: int)
    requires Fits(buf, n, 1)
    ensures Payload(buf, n, 1) == buf[..n]
  {
  }

  /** The first `k` samples of a payload are the payload of `k` samples. */
  lemma {:induction false} PayloadPrefix(buf: seq<byte>, n: int, k: int, stride: int)
    requires Fits(buf, n, stride) && 0 <= k <= n
    ensures Fits(buf, k, stride) && Payload(buf, k, stride) == Payload(buf, n, stride)[..k]
  {
    if k > 0 {
      MulMono(k - 1, n - 1, stride);
    }
  }

  /** Everything `pgm_write` means to put on the stream: header, then payload. */
  function Image(buf: seq<byte>, w: int, h: int, comment: Option<seq<byte>>, stride: int): seq<byte>
    requires 0 <= w && 0 <= h && Fits(buf, w * h, stride)
  {
    Header(w, h, comment) + Payload(buf, w * h, stride)
  }

  /**
   * The sample loop of `pgm_write` for a stride other than 1: one `fputc`
   * per sample, stepping `stride` bytes through `buf`, stopping with -1 at
   * the first that does not fit.
   */
  method PutSamples(fp: OutStream, buf: seq<byte>, N: int, stride: int) returns (r: int)
    requires fp.Valid() && Fits(buf, N, stride)
    modifies fp
    ensures fp.Valid() && fp.data == Fill(old(fp.data), Payload(buf, N, stride), fp.capacity)
    ensures r == if |old(fp.data)| + N <= fp.capacity then 0 else -1
  {
    ghost var d0 := fp.data;
    var n := N;
    var p := 0;
    ghost var k := 0;
    PayloadPrefix(buf, N, 0, stride);
    while n > 0  // `n-- > 0`: the decrement after the test is never observed
      invariant 0 <= n <= N && k == N - n && p == k * stride
      invariant fp.Valid() && |d0| + k <= fp.capacity
      invariant Fits(buf, k, stride) && fp.data == Fill(d0, Payload(buf, k, stride), fp.capacity)
    {
      MulMono(k, N - 1, stride);
      var c := fp.Putc(buf[p]);
      if c == EOF {
        PayloadPrefix(buf, N, k, stride);
        var rest := Payload(buf, N, stride)[k..];
        assert Payload(buf, k, stride) + rest == Payload(buf, N, stride);
        FullAbsorbs(d0, Payload(buf, k, stride), rest, fp.capacity);
        return -1;
      }
      FillAppend(d0, Payload(buf, k, stride), [buf[p]], fp.capacity);
      MulSucc(k, stride);
      p := p + stride;
      n := n - 1;
      k := k + 1;
    }
    return 0;
  }

  /**
   * `pgm_write`: print the header, ending the process with status -1 when
   * fewer than 11 characters went out; then write the `w*h` samples, in one
   * `fwrite` when `stride` is 1 and one `fputc` per sample otherwise. Either
   * path leaves on the stream as much of the image as fits, and returns 0
   * when all of it fitted, -1 when a sample did not.
   */
  method PgmWrite(fp: OutStream, buf: seq<byte>, w: int, h: int, comment: Option<seq<byte>>, stride: int)
      returns (o: Outcome)
    requires fp.Valid() && 0 <= w && 0 <= h && Fits(buf, w * h, stride)
    modifies fp
    ensures fp.Valid() && fp.data == Fill(old(fp.data), Image(buf, w, h, comment, stride), fp.capacity)
    ensures o == if |old(fp.data)| + |Header(w, h, comment)| > fp.capacity then Exit(-1)
                 else if |old(fp.data)| + |Header(w, h, comment)| + w * h <= fp.capacity then Return(0)
                 else Return(-1)
  {
    ghost var d0 := fp.data;
    var hd := Header(w, h, comment);
    var N := w * h;
    assert Image(buf, w, h, comment, stride) == hd + Payload(buf, N, stride);
    var wr := fp.Print(hd);
    if wr < 11 {
      FillFull(fp.data, Payload(buf, N, stride), fp.capacity);
      FillAppend(d0, hd, Payload(buf, N, stride), fp.capacity);
      return Exit(-1);
    }
    if stride == 1 {
      StrideOnePayload(buf, N);
      var count := fp.Write(buf[..N]);
      FillAppend(d0, hd, buf[..N], fp.capacity);
      assert count == N <==> |d0| + |hd| + N <= fp.capacity;
      return if count == N then Return(0) else Return(-1);
    } else {
      var r := PutSamples(fp, buf, N, stride);
      FillAppend(d0, hd, Payload(buf, N, stride), fp.capacity);
      if r == -1 {
        return Return(-1);
      }
    }
    return Return(0);
  }

  // ---------------------------------------------------------------------
  // Reading

  /** The two bytes that end a comment. */
  predicate IsEol(c: int)
  {
    c == NEWLINE as int || c == RETURN as int
  }

  /** No byte of `t` is whitespace or `#`: the bytes a token may hold. */
  predicate Unbroken(t: seq<byte>)
  {
    forall i :: 0 <= i < |t| ==> !IsSpace(t[i]) && t[i] != HASH
  }

  /** A line end lies ahead in `s`: a comment begun here ends. */
  predicate EolAhead(s: seq<byte>)
  {
    |s| > 0 && (IsEol(s[0]) || EolAhead(s[1..]))
  }

  /** What is left of `s` once a comment is eaten through its first line end. */
  function SkipComment(s: seq<byte>): (r: seq<byte>)
    requires EolAhead(s)
    ensures |r| < |s| && r == s[|s| - |r|..] && IsEol(s[|s| - |r| - 1])
  {
    if IsEol(s[0]) then s[1..] else SkipComment(s[1..])
  }

  /** `(char)c`: a byte read stays itself, EOF is stored as 0xFF. */
  function Stored(c: int): byte
    requires c == EOF || 0 <= c < 256
  {
    if c == EOF then 255 else c
  }

  /** A token that was read, and the input left after it. */
  datatype Scanned = Scanned(token: seq<byte>, rest: seq<byte>)

  /**
   * The rest of a `nextToken` call that has stored `tok` so far and has `s`
   * before it, with room for `limit` bytes: whitespace and `#` comments are
   * skipped while nothing is stored, and end the token once something is; a
   * full buffer ends it too; every other byte, EOF included, is stored.
   * None when the call never returns (a comment that runs into EOF).
   */
  function Scan(s: seq<byte>, tok: seq<byte>, limit: nat): Option<Scanned>
    decreases if |tok| < limit then limit - |tok| else 0, |s|
  {
    if |tok| >= limit then Some(Scanned(tok, s))
    else
      var c := if |s| > 0 then s[0] as int else EOF;
      if IsSpace(c) then
        if |tok| > 0 then Some(Scanned(tok, s[1..])) else Scan(s[1..], tok, limit)
      else if c == HASH as int then
        if !EolAhead(s[1..]) then None
        else if |tok| > 0 then Some(Scanned(tok, SkipComment(s[1..])))
        else Scan(SkipComment(s[1..]), tok, limit)
      else
        Scan(if |s| > 0 then s[1..] else s, tok + [Stored(c)], limit)
  }

  /**
   * A token holds what was stored before it and at most `limit` bytes; it
   * holds no whitespace and no `#`; what is left of the input is a suffix of
   * what there was.
   */
  lemma {:induction false} ScanShape(s: seq<byte>, tok: seq<byte>, limit: nat)
    requires Scan(s, tok, limit).Some? && |tok| <= limit
    ensures var r := Scan(s, tok, limit).value;
      |tok| <= |r.token| <= limit && r.token[..|tok|] == tok &&
      (Unbroken(tok) ==> Unbroken(r.token)) &&
      |r.rest| <= |s| && r.rest == s[|s| - |r.rest|..]
  {
    ScanToken(s, tok, limit);
    ScanRest(s, tok, limit);
  }

  /** The token part of ScanShape. */
  lemma {:induction false} ScanToken(s: seq<byte>, tok: seq<byte>, limit: nat)
    requires Scan(s, tok, limit).Some? && |tok| <= limit
    ensures var r := Scan(s, tok, limit).value;
      |tok| <= |r.token| <= limit && r.token[..|tok|] == tok &&
      (Unbroken(tok) ==> Unbroken(r.token))
    decreases if |tok| < limit then limit - |tok| else 0, |s|
  {
    if |tok| < limit {
      var c := if |s| > 0 then s[0] as int else EOF;
      if IsSpace(c) {
        if |tok| == 0 {
          ScanToken(s[1..], tok, limit);
        }
      } else if c == HASH as int {
        if |tok| == 0 {
          ScanToken(SkipComment(s[1..]), tok, limit);
        }
      } else {
        var s' := if |s| > 0 then s[1..] else s;
        ScanToken(s', tok + [Stored(c)], limit);
        assert (tok + [Stored(c)])[..|tok|] == tok;
      }
    }
  }

  /** The rest part of ScanShape: what is left of the input is a suffix of it. */
  lemma {:induction false} ScanRest(s: seq<byte>, tok: seq<byte>, limit: nat)
    requires Scan(s, tok, limit).Some?
    ensures var r := Scan(s, tok, limit).value;
      |r.rest| <= |s| && r.rest == s[|s| - |r.rest|..]
    decreases if |tok| < limit then limit - |tok| else 0, |s|
  {
    if |tok| < limit {
      var c := if |s| > 0 then s[0] as int else EOF;
      if IsSpace(c) {
        if |tok| == 0 {
          ScanRest(s[1..], tok, limit);
        }
      } else if c == HASH as int {
        if |tok| == 0 {
          ScanRest(SkipComment(s[1..]), tok, limit);
        }
      } else {
        var s' := if |s| > 0 then s[1..] else s;
        ScanRest(s', tok + [Stored(c)], limit);
      }
    }
  }

  /** `nextToken`'s comment loop: read through the first line end. */
  method EatComment(fp: InStream)
    requires fp.Valid() && EolAhead(fp.Rest())
    modifies fp
    ensures fp.Valid() && fp.Rest() == SkipComment(old(fp.Rest()))
  {
    var c := fp.Getc();
    while !IsEol(c)
      invariant fp.Valid()
      invariant IsEol(c) ==> fp.Rest() == SkipComment(old(fp.Rest()))
      invariant !IsEol(c) ==> EolAhead(fp.Rest()) && SkipComment(fp.Rest()) == SkipComment(old(fp.Rest()))
      decreases |fp.Rest()|
    {
      c := fp.Getc();
    }
  }

  /**
   * `nextToken`: with room for `buf.Length - 1` bytes, read the next token
   * into `buf`, NUL-terminate it and return its length; the stream is left
   * just past the byte that ended it.
   */
  method NextToken(fp: InStream, buf: array<byte>) returns (n: int)
    requires fp.Valid() && 1 <= buf.Length
    requires Scan(fp.Rest(), [], buf.Length - 1).Some?
    modifies fp, buf
    ensures fp.Valid()
    ensures var r := Scan(old(fp.Rest()), [], buf.Length - 1).value;
      0 <= n < buf.Length && buf[..n] == r.token && buf[n] == 0 && fp.Rest() == r.rest
    ensures forall j :: n < j < buf.Length ==> buf[j] == old(buf[j])
  {
    var buflen := buf.Length;
    n := 0;
    buflen := buflen - 1;
    ghost var goal := Scan(fp.Rest(), [], buflen);
    while n < buflen
      invariant fp.Valid() && 0 <= n <= buflen
      invariant Scan(fp.Rest(), buf[..n], buflen) == goal
      invariant forall j :: n <= j < buf.Length ==> buf[j] == old(buf[j])
      decreases buflen - n, |fp.Rest()|
    {
      var c := fp.Getc();
      if IsSpace(c) {
        if n > 0 {
          assert goal == Some(Scanned(buf[..n], fp.Rest()));
          break;
        } else {
          continue;
        }
      } else if c == HASH as int {
        EatComment(fp);
        if n > 0 {
          assert goal == Some(Scanned(buf[..n], fp.Rest()));
          break;
        } else {
          continue;
        }
      }
      ghost var stored := buf[..n];
      buf[n] := Stored(c);
      n := n + 1;
      assert buf[..n] == stored + [Stored(c)];
    }
    assert goal == Some(Scanned(buf[..n], fp.Rest()));
    buf[n] := 0;
  }

  /** How `pgm_load` ends. */
  datatype LoadOutcome =
    | Unopened                          // `fopen` failed: -1, nothing stored
    | BadSignature(signature: seq<byte>) // `errx(0, ...)`: the process ends with status 0
    | Hangs                             // a `nextToken` call never returns
    | ShortRead(w: int, h: int)         // -1; `*w` and `*h` already stored
    | NullWrite                         // `fread` stores through the NULL `calloc` gave: undefined
    | Loaded(maxval: int, w: int, h: int, img: seq<byte>)

  /** The value `pgm_load` returns, when it returns. */
  function LoadResult(o: LoadOutcome): int
    requires o.Unopened? || o.ShortRead? || o.Loaded?
  {
    if o.Loaded? then o.maxval else -1
  }

  /**
   * The samples after the header: `calloc` of `w*h` items of one byte when
   * `maxval` is below 256, of two bytes otherwise, then one `fread` of as
   * many. `callocOk` says whether `calloc` grants a positive count; a
   * negative count, a huge one once unsigned, it never grants. Without the
   * memory, `fread` stores the first byte left through NULL, and finds
   * nothing to store only at the end of the file. Fewer whole items than
   * asked for is a short read.
   */
  function Samples(s: seq<byte>, w: int, h: int, maxval: int, callocOk: bool): (o: LoadOutcome)
    ensures o.Loaded? || o.ShortRead? || o.NullWrite?
    ensures o.Loaded? ==>
      (0 <= w * h && o.maxval == maxval && o.w == w && o.h == h &&
       |o.img| == w * h * (if maxval < 256 then 1 else 2) <= |s| && o.img == s[..|o.img|])
    ensures o.NullWrite? ==> 0 < |s| && (!callocOk || w * h < 0)
  {
    var n := w * h;
    var size := if maxval < 256 then 1 else 2;
    if n != 0 && !(callocOk && 0 < n) then (if 0 < |s| then NullWrite else ShortRead(w, h))
    else if n <= |s| / size then Loaded(maxval, w, h, s[..n * size]) else ShortRead(w, h)
  }

  /** The field a header token holds: the C string in the token buffer, through `atoi`. */
  function Field(t: Scanned): int
  {
    Atoi(CString(t.token))
  }

  /**
   * What `pgm_load` makes of a file (None when it cannot be opened), when
   * `calloc` grants a positive count iff `callocOk`: the signature token
   * must be "P5"; then the fields and samples.
   */
  function Load(file: Option<seq<byte>>, callocOk: bool): (o: LoadOutcome)
    ensures o.Unopened? <==> file.None?
    ensures o.BadSignature? ==> o.signature != P5
  {
    match file
    case None => Unopened
    case Some(data) =>
      match Scan(data, [], TOKEN_LIMIT)
      case None => Hangs
      case Some(t1) =>
        if CString(t1.token) != P5 then BadSignature(CString(t1.token)) else Fields(t1.rest, callocOk)
  }

  /** After the signature: the width, height and maximum value tokens, then the samples. */
  function Fields(s: seq<byte>, callocOk: bool): (o: LoadOutcome)
    ensures !o.Unopened? && !o.BadSignature?
  {
    match Scan(s, [], TOKEN_LIMIT)
    case None => Hangs
    case Some(t2) =>
      match Scan(t2.rest, [], TOKEN_LIMIT)
      case None => Hangs
      case Some(t3) =>
        match Scan(t3.rest, [], TOKEN_LIMIT)
        case None => Hangs
        case Some(t4) => Samples(t4.rest, Field(t2), Field(t3), Field(t4), callocOk)
  }

  /**
   * The part of `pgm_load` after the signature check: three header fields
   * read into the token buffer and converted with `atoi`, then one `fread`
   * of `w*h` one-byte samples when `maxval` is below 256, two-byte ones
   * otherwise.
   */
  method ReadFields(fp: InStream, buf: array<byte>, callocOk: bool) returns (o: LoadOutcome)
    requires fp.Valid() && buf.Length == TOKEN_LIMIT + 1 && !Fields(fp.Rest(), callocOk).Hangs?
    modifies fp, buf
    ensures o == Fields(old(fp.Rest()), callocOk)
  {
    ghost var t2 := Scan(fp.Rest(), [], TOKEN_LIMIT).value;
    var n := NextToken(fp, buf);
    CStringAtNul(buf[..], n);
    var w := Atoi(CString(buf[..]));
    assert w == Field(t2);
    ghost var t3 := Scan(fp.Rest(), [], TOKEN_LIMIT).value;
    n := NextToken(fp, buf);
    CStringAtNul(buf[..], n);
    var h := Atoi(CString(buf[..]));
    assert h == Field(t3);
    ghost var t4 := Scan(fp.Rest(), [], TOKEN_LIMIT).value;
    n := NextToken(fp, buf);
    CStringAtNul(buf[..], n);
    var maxval := Atoi(CString(buf[..]));
    assert maxval == Field(t4) && fp.Rest() == t4.rest;
    assert Fields(old(fp.Rest()), callocOk) == Samples(t4.rest, w, h, maxval, callocOk);
    n := w * h;
    if n != 0 && !(callocOk && 0 < n) {
      // `calloc` gave NULL: `fread` stores through it unless the file is at its end.
      if fp.pos < |fp.data| {
        return NullWrite;
      }
      return ShortRead(w, h);
    }
    var items, img;
    if maxval < 256 {
      items, img := fp.Read(n, 1);
    } else {
      items, img := fp.Read(n, 2);
    }
    ghost var avail := |t4.rest| / (if maxval < 256 then 1 else 2);
    assert items == (if 0 <= n < avail then n else avail);
    if items != n {
      assert !(0 <= n <= avail);
      return ShortRead(w, h);
    }
    return Loaded(maxval, w, h, img);
  }

  /**
   * `pgm_load`: open the file, read the signature token into a 32-byte
   * buffer and end the process unless it is "P5", then read the fields and
   * samples; `callocOk` says whether `calloc` grants a positive count.
   */
  method PgmLoad(file: Option<seq<byte>>, callocOk: bool) returns (o: LoadOutcome)
    requires !Load(file, callocOk).Hangs?
    ensures o == Load(file, callocOk)
  {
    if file.None? {
      return Unopened;
    }
    var fp := new InStream(file.value);
    var buf := new byte[32];
    ghost var t1 := Scan(fp.Rest(), [], TOKEN_LIMIT).value;
    var n := NextToken(fp, buf);
    CStringAtNul(buf[..], n);
    assert CString(buf[..]) == CString(t1.token);
    if CString(buf[..]) != P5 {
      return BadSignature(CString(buf[..]));
    }
    o := ReadFields(fp, buf, callocOk);
  }

  // ---------------------------------------------------------------------
  // Reading back what was written

  /** A word followed by whitespace is read as one token, the whitespace consumed. */
  lemma ScanWord(t: seq<byte>, sep: byte, rest: seq<byte>, limit: nat)
    requires 1 <= |t| < limit && Unbroken(t) && IsSpace(sep)
    ensures Scan(t + [sep] + rest, [], limit) == Some(Scanned(t, rest))
  {
    ScanWordFrom(t, 0, sep, rest, limit);
    assert t[0..] == t;
  }

  /** The same, from the state where the first `i` bytes of the word are stored. */
  lemma {:induction false} ScanWordFrom(t: seq<byte>, i: nat, sep: byte, rest: seq<byte>, limit: nat)
    requires i <= |t| && 1 <= |t| < limit && Unbroken(t) && IsSpace(sep)
    ensures Scan(t[i..] + [sep] + rest, t[..i], limit) == Some(Scanned(t, rest))
    decreases |t| - i
  {
    var s := t[i..] + [sep] + rest;
    if i == |t| {
      assert s == [sep] + rest;
      assert t[..i] == t;
    } else {
      ScanWordFrom(t, i + 1, sep, rest, limit);
      assert s[0] == t[i] && s[1..] == t[i + 1..] + [sep] + rest;
      assert t[..i] + [Stored(t[i])] == t[..i + 1];
    }
  }

  /** A comment that has no line end in it is eaten through the line end after it. */
  lemma {:induction false} SkipCommentLine(c: seq<byte>, rest: seq<byte>)
    requires forall i :: 0 <= i < |c| ==> !IsEol(c[i])
    ensures EolAhead(c + [NEWLINE] + rest) && SkipComment(c + [NEWLINE] + rest) == rest
    decreases |c|
  {
    if |c| == 0 {
      assert c + [NEWLINE] + rest == [NEWLINE] + rest;
    } else {
      SkipCommentLine(c[1..], rest);
      assert (c + [NEWLINE] + rest)[1..] == c[1..] + [NEWLINE] + rest;
    }
  }

  /** Before a token, a `#` comment line is skipped as if it were not there. */
  lemma ScanComment(c: seq<byte>, rest: seq<byte>, limit: nat)
    requires 0 < limit && forall i :: 0 <= i < |c| ==> !IsEol(c[i])
    ensures Scan([HASH] + c + [NEWLINE] + rest, [], limit) == Scan(rest, [], limit)
  {
    SkipCommentLine(c, rest);
    assert ([HASH] + c + [NEWLINE] + rest)[1..] == c + [NEWLINE] + rest;
  }

  /** A header field printed with `%d` is read back as the same number. */
  lemma FieldOfFormat(n: int, rest: seq<byte>)
    ensures Field(Scanned(Format(n), rest)) == n
  {
    CStringOfWord(Format(n));
    AtoiFormat(n);
  }

  /** "255" is how `%d` prints 255. */
  lemma MaxvalText()
    ensures Format(255) == MAXVAL
  {
    assert Digits(25) == [50, 53];
  }

  /** Four tokens read in a row, the first of them "P5", lead `pgm_load` to its samples. */
  lemma LoadOfTokens(data: seq<byte>, t1: Scanned, t2: Scanned, t3: Scanned, t4: Scanned)
    requires Scan(data, [], TOKEN_LIMIT) == Some(t1) && CString(t1.token) == P5
    requires Scan(t1.rest, [], TOKEN_LIMIT) == Some(t2)
    requires Scan(t2.rest, [], TOKEN_LIMIT) == Some(t3)
    requires Scan(t3.rest, [], TOKEN_LIMIT) == Some(t4)
    ensures forall callocOk :: Load(Some(data), callocOk) == Samples(t4.rest, Field(t2), Field(t3), Field(t4), callocOk)
  {
    forall callocOk ensures Load(Some(data), callocOk) == Fields(t1.rest, callocOk) {}
  }

  /** A space before a text without line ends adds none. */
  lemma SpacedLine(x: seq<byte>)
    requires forall i :: 0 <= i < |x| ==> !IsEol(x[i])
    ensures forall i :: 0 <= i < |[SPACE] + x| ==> !IsEol(([SPACE] + x)[i])
  {
    forall i | 0 <= i < |[SPACE] + x|
      ensures !IsEol(([SPACE] + x)[i])
    {
      if i > 0 { assert ([SPACE] + x)[i] == x[i - 1]; }
    }
  }

  /** A comment line of printed text `x` before a token is skipped. */
  lemma SkipsPrinted(x: seq<byte>, last: seq<byte>)
    requires forall i :: 0 <= i < |x| ==> !IsEol(x[i])
    ensures Scan([HASH, SPACE] + x + [NEWLINE] + last, [], TOKEN_LIMIT) == Scan(last, [], TOKEN_LIMIT)
  {
    var c := [SPACE] + x;
    assert [HASH, SPACE] + x + [NEWLINE] + last == [HASH] + c + [NEWLINE] + last;
    SpacedLine(x);
    ScanComment(c, last, TOKEN_LIMIT);
  }

  /** After the height: the comment line, if any, is skipped and "255" is read. */
  lemma {:induction false} TailToken(comment: Option<seq<byte>>, payload: seq<byte>)
    requires OneLine(comment)
    ensures Scan(CommentLine(comment) + (MAXVAL + [NEWLINE] + payload), [], TOKEN_LIMIT)
         == Some(Scanned(MAXVAL, payload))
  {
    var last := MAXVAL + [NEWLINE] + payload;
    if comment.Some? {
      SkipsPrinted(CString(comment.value), last);
    } else {
      assert CommentLine(comment) + last == last;
    }
    ScanWord(MAXVAL, NEWLINE, payload, TOKEN_LIMIT);
  }

  /** Helper: nine pieces and a tail, regrouped as the header's tokens are read. */
  lemma Regroup<T>(p: seq<T>, a: seq<T>, fw: seq<T>, b: seq<T>, fh: seq<T>, c: seq<T>, cl: seq<T>, m: seq<T>, d: seq<T>, rest: seq<T>)
    ensures p + a + fw + b + fh + c + cl + m + d + rest == p + a + (fw + b + (fh + c + (cl + (m + d + rest))))
  {
  }

  /** The header `pgm_write` prints, regrouped token by token. */
  lemma HeaderLayout(w: int, h: int, comment: Option<seq<byte>>, payload: seq<byte>)
    ensures Header(w, h, comment) + payload
         == P5 + [NEWLINE] + (Format(w) + [SPACE] + (Format(h) + [NEWLINE] + (CommentLine(comment) + (MAXVAL + [NEWLINE] + payload))))
  {
    Regroup(P5, [NEWLINE], Format(w), [SPACE], Format(h), [NEWLINE], CommentLine(comment), MAXVAL, [NEWLINE], payload);
  }

  /** The header `pgm_write` prints is read as four tokens, the comment line skipped. */
  lemma {:induction false} HeaderTokens(w: int, h: int, comment: Option<seq<byte>>, payload: seq<byte>)
    requires 0 <= w < 0x8000_0000 && 0 <= h < 0x8000_0000
    requires OneLine(comment)
    ensures var tail := CommentLine(comment) + (MAXVAL + [NEWLINE] + payload);
      var r2 := Format(h) + [NEWLINE] + tail;
      var r1 := Format(w) + [SPACE] + r2;
      Scan(Header(w, h, comment) + payload, [], TOKEN_LIMIT) == Some(Scanned(P5, r1)) &&
      Scan(r1, [], TOKEN_LIMIT) == Some(Scanned(Format(w), r2)) &&
      Scan(r2, [], TOKEN_LIMIT) == Some(Scanned(Format(h), tail)) &&
      Scan(tail, [], TOKEN_LIMIT) == Some(Scanned(MAXVAL, payload))
  {
    IntFormatLength(w);
    IntFormatLength(h);
    var tail := CommentLine(comment) + (MAXVAL + [NEWLINE] + payload);
    var r2 := Format(h) + [NEWLINE] + tail;
    var r1 := Format(w) + [SPACE] + r2;
    HeaderLayout(w, h, comment, payload);
    ScanWord(P5, NEWLINE, r1, TOKEN_LIMIT);
    ScanWord(Format(w), SPACE, r2, TOKEN_LIMIT);
    ScanWord(Format(h), NEWLINE, tail, TOKEN_LIMIT);
    TailToken(comment, payload);
  }

  /** Whatever follows the header `pgm_write` prints is read as the samples of its image. */
  lemma {:induction false} HeaderLoads(w: int, h: int, comment: Option<seq<byte>>, payload: seq<byte>)
    requires 0 <= w < 0x8000_0000 && 0 <= h < 0x8000_0000
    requires OneLine(comment)
    ensures forall callocOk :: Load(Some(Header(w, h, comment) + payload), callocOk) == Samples(payload, w, h, 255, callocOk)
  {
    HeaderTokens(w, h, comment, payload);
    var tail := CommentLine(comment) + (MAXVAL + [NEWLINE] + payload);
    var r2 := Format(h) + [NEWLINE] + tail;
    var r1 := Format(w) + [SPACE] + r2;
    CStringOfWord(P5);
    LoadOfTokens(Header(w, h, comment) + payload, Scanned(P5, r1), Scanned(Format(w), r2),
                 Scanned(Format(h), tail), Scanned(MAXVAL, payload));
    FieldOfFormat(w, r2);
    FieldOfFormat(h, tail);
    MaxvalText();
    FieldOfFormat(255, payload);
  }

  /**
   * Round trip: a file that `pgm_write` wrote in full with stride 1, with no
   * comment or a comment whose printed part holds no line end, is loaded by
   * `pgm_load` as the same width, height and samples, with maximum value
   * 255, when `calloc` grants the samples' memory; when it refuses, `fread`
   * stores the first sample through NULL.
   */
  lemma {:induction false} WriteThenLoad(buf: seq<byte>, w: int, h: int, comment: Option<seq<byte>>, callocOk: bool)
    requires 0 <= w < 0x8000_0000 && 0 <= h < 0x8000_0000 && w * h <= |buf|
    requires OneLine(comment)
    ensures Fits(buf, w * h, 1)
    ensures callocOk || w * h == 0 ==> Load(Some(Image(buf, w, h, comment, 1)), callocOk) == Loaded(255, w, h, buf[..w * h])
    ensures !callocOk && w * h != 0 ==> Load(Some(Image(buf, w, h, comment, 1)), callocOk) == NullWrite
  {
    var n := w * h;
    var payload := buf[..n];
    StrideOnePayload(buf, n);
    assert Image(buf, w, h, comment, 1) == Header(w, h, comment) + payload;
    HeaderLoads(w, h, comment, payload);
    assert |payload| == n && payload[..n * 1] == payload;
    assert Samples(payload, w, h, 255, callocOk) == if callocOk || n == 0 then Loaded(255, w, h, payload) else NullWrite;
  }
}

/**
 * The decimal text the Netpbm writers print with `%d`, and the `atoi` that
 * the PGM loader reads it back with. Text is kept as bytes (ASCII), since it
 * shares a stream with raw pixel bytes.
 */
module Decimal {
  import opened Common

  const MINUS: byte := 45
  const PLUS: byte := 43
  const ZERO: byte := 48
  const SPACE: byte := 32
  const NEWLINE: byte := 10
  const RETURN: byte := 13
  const HASH: byte := 35

  /** `isdigit` in the C locale. */
  predicate IsDigit(c: int)
  {
    48 <= c <= 57
  }

  /** `isspace` in the C locale: space, tab, newline, vertical tab, form feed, return. */
  predicate IsSpace(c: int)
  {
    c == 32 || 9 <= c <= 13
  }

  /** A run of bytes with no whitespace, no `#` and no NUL: what a header field may be. */
  predicate Word(t: seq<byte>)
  {
    forall i :: 0 <= i < |t| ==> !IsSpace(t[i]) && t[i] != HASH && t[i] != 0
  }

  /** The digits of `n` in base 10, most significant first, without leading zeros. */
  function Digits(n: nat): (s: seq<byte>)
    ensures 1 <= |s|
    ensures forall i :: 0 <= i < |s| ==> IsDigit(s[i])
    ensures n < 10 <==> |s| == 1
    decreases n
  {
    if n < 10 then [ZERO + n] else Digits(n / 10) + [ZERO + n % 10]
  }

  /** `printf("%d", n)`: an optional minus sign, then the digits of `|n|`. */
  function Format(n: int): (s: seq<byte>)
    ensures 1 <= |s| && Word(s)
    ensures n < 0 <==> s[0] == MINUS
  {
    if n < 0 then [MINUS] + Digits(-n) else Digits(n)
  }

  /** The value of a run of decimal digits, most significant first. */
  function Value(d: seq<byte>): nat
    requires forall i :: 0 <= i < |d| ==> IsDigit(d[i])
  {
    if |d| == 0 then 0 else assert IsDigit(d[|d| - 1]); 10 * Value(d[..|d| - 1]) + (d[|d| - 1] - 48)
  }

  /** The length of the longest prefix of `s` made of digits. */
  function DigitRun(s: seq<byte>): (k: nat)
    ensures k <= |s|
    ensures forall i :: 0 <= i < k ==> IsDigit(s[i])
    ensures k < |s| ==> !IsDigit(s[k])
  {
    if |s| == 0 || !IsDigit(s[0]) then 0 else 1 + DigitRun(s[1..])
  }

  /** The length of the leading whitespace of `s`. */
  function SpaceRun(s: seq<byte>): (k: nat)
    ensures k <= |s|
    ensures forall i :: 0 <= i < k ==> IsSpace(s[i])
    ensures k < |s| ==> !IsSpace(s[k])
  {
    if |s| == 0 || !IsSpace(s[0]) then 0 else 1 + SpaceRun(s[1..])
  }

  /** The value of the digit run at the head of `s`. */
  function LeadingValue(s: seq<byte>): nat
  {
    Value(s[..DigitRun(s)])
  }

  /**
   * `atoi`: skip leading whitespace, take an optional sign, then the longest
   * run of digits (none gives 0). Overflow, which C leaves undefined, does
   * not arise on unbounded integers. Only a minus sign gives a negative
   * value, and a text of whitespace alone reads as 0.
   */
  function Atoi(s: seq<byte>): (n: int)
    ensures n < 0 ==> SpaceRun(s) < |s| && s[SpaceRun(s)] == MINUS
    ensures SpaceRun(s) == |s| ==> n == 0
  {
    var t := s[SpaceRun(s)..];
    if 0 < |t| && t[0] == MINUS then -(LeadingValue(t[1..]) as int)
    else if 0 < |t| && t[0] == PLUS then LeadingValue(t[1..])
    else LeadingValue(t)
  }

  /** The C string a NUL-terminated buffer holds: the bytes before its first NUL. */
  function CString(s: seq<byte>): (c: seq<byte>)
    ensures |c| <= |s| && c == s[..|c|]
    ensures forall i :: 0 <= i < |c| ==> c[i] != 0
  {
    if |s| == 0 || s[0] == 0 then [] else [s[0]] + CString(s[1..])
  }

  /** A buffer with no NUL holds itself as a C string. */
  lemma {:induction false} CStringOfWord(s: seq<byte>)
    requires forall i :: 0 <= i < |s| ==> s[i] != 0
    ensures CString(s) == s
    decreases |s|
  {
    if |s| > 0 {
      CStringOfWord(s[1..]);
      assert [s[0]] + s[1..] == s;
    }
  }

  /** A buffer NUL-terminated at `n` holds, as a C string, what precedes the NUL. */
  lemma {:induction false} CStringAtNul(s: seq<byte>, n: nat)
    requires n < |s| && s[n] == 0
    ensures CString(s) == CString(s[..n])
    decreases n
  {
    if n > 0 && s[0] != 0 {
      CStringAtNul(s[1..], n - 1);
      assert s[1..][..n - 1] == s[..n][1..];
    }
  }

  /** The digits of `n` read back as a number give `n`. */
  lemma {:induction false} ValueOfDigits(n: nat)
    ensures Value(Digits(n)) == n
    decreases n
  {
    if n >= 10 {
      var d := Digits(n);
      assert d[..|d| - 1] == Digits(n / 10);
      ValueOfDigits(n / 10);
    }
  }

  /** A run of digits is read in full: the run stops only at its end. */
  lemma {:induction false} DigitRunOfDigits(d: seq<byte>)
    requires forall i :: 0 <= i < |d| ==> IsDigit(d[i])
    ensures DigitRun(d) == |d|
    decreases |d|
  {
    if |d| > 0 {
      DigitRunOfDigits(d[1..]);
    }
  }

  /** `atoi` reads back every number that `%d` prints. */
  lemma {:induction false} AtoiFormat(n: int)
    ensures Atoi(Format(n)) == n
  {
    var s := Format(n);
    assert SpaceRun(s) == 0;
    assert s[SpaceRun(s)..] == s;
    var m := if n < 0 then -n else n;
    DigitRunOfDigits(Digits(m));
    ValueOfDigits(m);
    assert Digits(m)[..|Digits(m)|] == Digits(m);
    if n < 0 {
      assert s[1..] == Digits(m);
    } else {
      assert s[0] != MINUS && s[0] != PLUS;
      assert s[..|s|] == s;
    }
  }

  /** `10^k`. */
  function Pow10(k: nat): (p: nat)
    ensures 1 <= p
  {
    if k == 0 then 1 else 10 * Pow10(k - 1)
  }

  /** A number below `10^k` prints in at most `k` digits. */
  lemma {:induction false} DigitsLength(n: nat, k: nat)
    requires 1 <= k && n < Pow10(k)
    ensures |Digits(n)| <= k
    decreases k
  {
    if n >= 10 {
      assert k > 1;
      DigitsLength(n / 10, k - 1);
    }
  }

  /** A non-negative C `int` prints in at most ten characters. */
  lemma IntFormatLength(n: int)
    requires 0 <= n < 0x8000_0000
    ensures |Format(n)| <= 10
  {
    assert Pow10(10) == 10_000_000_000;
    DigitsLength(n, 10);
  }
}

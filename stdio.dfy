/**
 * The two `FILE *` streams the Netpbm code uses, reduced to what it observes.
 *
 * An output stream holds the bytes written so far and accepts at most
 * `capacity` bytes in all; a write that does not fit stores the part that
 * fits and reports the shortfall the way the C call does (`fprintf` a
 * negative count, `fwrite` a short item count, `fputc` EOF).
 *
 * An input stream is a byte sequence and a read position; `fgetc` gives EOF
 * (-1) at the end without moving, `fread` delivers the whole items left.
 */
module Stdio {
  import opened Common

  const EOF: int := -1

  function Min(a: int, b: int): int
  {
    if a < b then a else b
  }

  /**
   * The contents of a stream holding `d`, of capacity `cap`, after `bs` is
   * offered to it: as much of `bs` as still fits is appended.
   */
  function Fill(d: seq<byte>, bs: seq<byte>, cap: nat): (r: seq<byte>)
    requires |d| <= cap
    ensures |r| == Min(|d| + |bs|, cap)
    ensures r[..|d|] == d && r[|d|..] == bs[..|r| - |d|]
  {
    d + bs[..Min(|bs|, cap - |d|)]
  }

  /** Offering `a` and then `b` leaves what offering `a + b` at once leaves. */
  lemma {:induction false} FillAppend(d: seq<byte>, a: seq<byte>, b: seq<byte>, cap: nat)
    requires |d| <= cap
    ensures Fill(Fill(d, a, cap), b, cap) == Fill(d, a + b, cap)
  {
    var da := Fill(d, a, cap);
    if |d| + |a| <= cap {
      assert da == d + a;
      assert (a + b)[..Min(|a + b|, cap - |d|)] == a + b[..Min(|b|, cap - |da|)];
    } else {
      assert |da| == cap;
      assert (a + b)[..Min(|a + b|, cap - |d|)] == a[..cap - |d|];
    }
  }

  /** Once `a` has filled the stream, whatever is offered after it is lost. */
  lemma FullAbsorbs(d: seq<byte>, a: seq<byte>, b: seq<byte>, cap: nat)
    requires |d| <= cap <= |d| + |a|
    ensures Fill(d, a + b, cap) == Fill(d, a, cap)
  {
    assert (a + b)[..cap - |d|] == a[..cap - |d|];
  }

  /** A full stream takes nothing more. */
  lemma FillFull(d: seq<byte>, bs: seq<byte>, cap: nat)
    requires |d| == cap
    ensures Fill(d, bs, cap) == d
  {
  }

  /** An output stream: the bytes it holds and how many it can hold at most. */
  class OutStream {
    var data: seq<byte>
    const capacity: nat

    predicate Valid()
      reads this
    {
      |data| <= capacity
    }

    constructor (capacity: nat)
      ensures Valid() && data == [] && this.capacity == capacity
    {
      data := [];
      this.capacity := capacity;
    }

    /** `fprintf`: the number of bytes printed, or -1 when they do not all fit. */
    method Print(bs: seq<byte>) returns (wr: int)
      requires Valid()
      modifies this
      ensures Valid() && data == Fill(old(data), bs, capacity)
      ensures wr == if |old(data)| + |bs| <= capacity then |bs| else -1
    {
      wr := if |data| + |bs| <= capacity then |bs| else -1;
      data := Fill(data, bs, capacity);
    }

    /** `fwrite` of one-byte items: the number of items written. */
    method Write(bs: seq<byte>) returns (count: int)
      requires Valid()
      modifies this
      ensures Valid() && data == Fill(old(data), bs, capacity)
      ensures count == Min(|bs|, capacity - |old(data)|)
    {
      count := Min(|bs|, capacity - |data|);
      data := Fill(data, bs, capacity);
    }

    /** `fputc`: the byte written, or EOF when the stream is full. */
    method Putc(b: byte) returns (c: int)
      requires Valid()
      modifies this
      ensures Valid() && data == Fill(old(data), [b], capacity)
      ensures c == if |old(data)| < capacity then b else EOF
    {
      c := if |data| < capacity then b else EOF;
      data := Fill(data, [b], capacity);
    }
  }

  /** `k` whole items of `size` bytes, no more than there are in `x` bytes, fit in them. */
  lemma WholeItems(x: nat, size: nat, k: int)
    requires 1 <= size && 0 <= k <= x / size
    ensures 0 <= k * size <= x
  {
    assert k * size <= (x / size) * size by {
      assert (x / size) * size - k * size == (x / size - k) * size;
    }
  }

  /** An input stream: the file's bytes and the read position. */
  class InStream {
    const data: seq<byte>
    var pos: nat

    predicate Valid()
      reads this
    {
      pos <= |data|
    }

    constructor (data: seq<byte>)
      ensures Valid() && this.data == data && pos == 0
    {
      this.data := data;
      pos := 0;
    }

    /** The bytes not read yet. */
    function Rest(): seq<byte>
      reads this
      requires Valid()
    {
      data[pos..]
    }

    /** `fgetc`: the next byte, or EOF at the end, where the position stays. */
    method Getc() returns (c: int)
      requires Valid()
      modifies this
      ensures Valid()
      ensures old(pos) < |data| ==> c == data[old(pos)] && pos == old(pos) + 1
      ensures old(pos) == |data| ==> c == EOF && pos == old(pos)
      ensures old(Rest()) == [] ==> c == EOF && Rest() == []
      ensures old(Rest()) != [] ==> c == old(Rest())[0] && Rest() == old(Rest())[1..]
    {
      if pos < |data| {
        c := data[pos];
        pos := pos + 1;
      } else {
        c := EOF;
      }
    }

    /**
     * `fread` of `n` items of `size` bytes: the whole items left, up to `n`
     * (a negative `n` becomes a huge unsigned count), and their bytes. The
     * bytes of a trailing partial item, which `fread` also consumes, stay
     * unread here; `pgm_load` reads nothing after its `fread`.
     */
    method Read(n: int, size: nat) returns (items: int, got: seq<byte>)
      requires Valid() && 1 <= size
      modifies this
      ensures Valid()
      ensures var avail := |old(Rest())| / size;
        items == (if 0 <= n < avail then n else avail)
      ensures 0 <= items * size <= |old(Rest())|
      ensures got == old(Rest())[..items * size] && Rest() == old(Rest())[items * size..]
    {
      ghost var rest := Rest();
      var avail := (|data| - pos) / size;
      items := if 0 <= n < avail then n else avail;
      WholeItems(|data| - pos, size, items);
      var bytes := items * size;
      got := data[pos..pos + bytes];
      pos := pos + bytes;
      assert got == rest[..bytes] && Rest() == rest[bytes..];
    }
  }
}

/**
 * video.c: the capture handle of the V4L2 wrapper.
 *
 * `VideoState` is `struct video_state`: the device name and descriptor, the
 * configured format, the default dequeue timeout, the set of buffer slots
 * the kernel currently owns (`queued`) and the table of memory-mapped
 * buffers (`frame`, `frame_count`).  Every operation is a short sequence of
 * driver calls, each of which the code checks before it updates the handle.
 *
 * The driver calls themselves (ioctl, select, mmap, munmap, open, stat,
 * calloc, realloc) are not modelled: their results are parameters of the
 * method that makes the call, so that a method states what the handle
 * becomes for every possible behaviour of the driver.  Mapped addresses are
 * opaque integers, with `MAP_FAILED` as -1.
 *
 * The 32-bit words `queued` and the `flags` argument of `_enqueue` are sets
 * of slot numbers here: bit `i` set is slot `i` in the set, `1 << i` is
 * `{i}`, `|` is union, `& ~` is difference and `__builtin_ctz` is the least
 * element.
 */
module Video {
  import opened Common
  import Fourcc

  /** `VIDEO_MAX_FRAME`: the number of buffer slots, one per bit of `queued`. */
  const VIDEO_MAX_FRAME: int := 32
  /** `VIDEO_DEQ_TIMEOUT_DEFAULT`: use the handle's own timeout. */
  const DEQ_TIMEOUT_DEFAULT: int := 0
  /** `VIDEO_DEQ_TIMEOUT_NONE`: do not wait before `VIDIOC_DQBUF`. */
  const DEQ_TIMEOUT_NONE: int := -1
  /** `MAXLEN_DEVPATH`: the name field holds this many characters plus a NUL. */
  const MAXLEN_DEVPATH: int := 63
  /** `(void *)-1`, the result of a failed `mmap`. */
  const MAP_FAILED: int := -1
  /** The timeout, in seconds, `_snap` passes to `_dequeue`. */
  const SNAP_TIMEOUT: int := 2

  /** Linux errno values the code compares against. */
  const EINTR: int := 4
  const EIO: int := 5
  const EAGAIN: int := 11

  /** `V4L2_BUF_FLAG_ERROR` in `struct v4l2_buffer.flags`. */
  const BUF_FLAG_ERROR: bv32 := 0x40
  /** `V4L2_CAP_VIDEO_CAPTURE` and `V4L2_CAP_STREAMING` in the capability word. */
  const CAP_VIDEO_CAPTURE: bv32 := 0x1
  const CAP_STREAMING: bv32 := 0x0400_0000

  /**
   * `_dequeue` reports a failure by returning its own `__LINE__`; these are
   * the four values, named after the failure they report.
   */
  const DEQ_INTERRUPTED: int := 691
  const DEQ_TIMED_OUT: int := 698
  const DEQ_DQBUF_FAILED: int := 704
  const DEQ_BUFFER_ERROR: int := 716

  /** A buffer slot, 0 .. VIDEO_MAX_FRAME - 1. */
  type Slot = i: int | 0 <= i < 32

  /** `struct frame_buffer`: where a driver buffer is mapped, and its size. */
  datatype FrameBuffer = FrameBuffer(index: int, address: int, length: int)

  /** The arguments of one `munmap` call. */
  datatype Region = Region(address: int, length: int)

  function RegionOf(f: FrameBuffer): Region
  {
    Region(f.address, f.length)
  }

  /** `char pixel_format[4 + 1]` of `struct video_format`. */
  type FourccText = s: seq<bv8> | |s| == 5 witness [0, 0, 0, 0, 0]

  /** `struct video_format`: a requested or configured capture format. */
  datatype VideoFormat = VideoFormat(width: u32, height: u32, pixelFormat: FourccText)

  /** What a successful `VIDIOC_S_FMT` hands back in `fmt.fmt.pix`. */
  datatype PixFormat = PixFormat(width: u32, height: u32, pixelFormat: bv32)

  /** What a successful `VIDIOC_QUERYBUF` reports for one buffer. */
  datatype BufInfo = BufInfo(length: u32, offset: u32)

  /** The fields of `struct v4l2_buffer` a successful `VIDIOC_DQBUF` fills in. */
  datatype DriverBuffer = DriverBuffer(index: Slot, flags: bv32, bytesused: u32, timestamp: int)

  /** The outcome of the `select` call that waits for a filled buffer. */
  datatype Wait = Ready | TimedOut | Interrupted

  /** The buffer whose error flag is set. */
  predicate Flagged(b: DriverBuffer)
  {
    b.flags & BUF_FLAG_ERROR != 0
  }

  // ---------------------------------------------------------------------
  // Specifications of the operations, as functions of the handle's state.
  // ---------------------------------------------------------------------

  /** The least element of a nonempty slot set: `__builtin_ctz` of the word. */
  function Lowest(s: set<Slot>): (k: Slot)
    requires s != {}
    ensures k in s
    ensures forall j :: j in s ==> k <= j
  {
    LowestFrom(s, 0)
  }

  function LowestFrom(s: set<Slot>, i: Slot): (k: Slot)
    requires s != {}
    requires forall j :: j in s ==> i <= j
    ensures k in s
    ensures forall j :: j in s ==> k <= j
    decreases 32 - i
  {
    if i in s then i
    else
      assert i < 31 by {
        var j :| j in s;
      }
      LowestFrom(s, i + 1)
  }

  /**
   * The slots `_enqueue` gets the driver to accept: of the `pending` slots,
   * those below the lowest one whose `VIDIOC_QBUF` fails (all of them when
   * none fails).  `ok` holds the slots whose `VIDIOC_QBUF` would succeed.
   */
  function Submitted(pending: set<Slot>, ok: set<Slot>): set<Slot>
  {
    var fail := pending - ok;
    if fail == {} then pending else set j | j in pending && j < Lowest(fail)
  }

  /** The slot whose failing `VIDIOC_QBUF` stops `_enqueue`, if any. */
  function Refused(pending: set<Slot>, ok: set<Slot>): set<Slot>
  {
    var fail := pending - ok;
    if fail == {} then {} else {Lowest(fail)}
  }

  /** The slot set after `_enqueue1(id)` when its `VIDIOC_QBUF` would succeed iff `ok`. */
  function Enqueue1Effect(queued: set<Slot>, id: Slot, ok: bool): set<Slot>
  {
    if id !in queued && ok then queued + {id} else queued
  }

  /** The timeout `_dequeue` acts on: `DEFAULT` stands for the handle's own. */
  function ResolveTimeout(timeout: int, dequeueTimeout: int): int
  {
    if timeout == DEQ_TIMEOUT_DEFAULT then dequeueTimeout else timeout
  }

  /** The result of one `_dequeue`, apart from `fr->mem`. */
  datatype Dequeued = Dequeued(
    rc: int,                       // the return value
    queued: set<Slot>,             // the slot set afterwards
    selected: bool,                // whether `select` was called
    dqbufIssued: bool,             // whether `VIDIOC_DQBUF` was issued
    buffer: Option<DriverBuffer>)  // what `VIDIOC_DQBUF` filled in, if it succeeded

  /**
   * `_dequeue(timeout)` on the slot set `queued`, given what `select` and
   * `VIDIOC_DQBUF` would report.
   */
  function DequeueSpec(queued: set<Slot>, timeout: int, dequeueTimeout: int,
                       wait: Wait, dqbuf: Option<DriverBuffer>): Dequeued
  {
    if queued == {} && timeout != DEQ_TIMEOUT_NONE then
      Dequeued(-1, queued, false, false, None)
    else
      var t := ResolveTimeout(timeout, dequeueTimeout);
      if t > 0 && wait == Interrupted then Dequeued(DEQ_INTERRUPTED, queued, true, false, None)
      else if t > 0 && wait == TimedOut then Dequeued(DEQ_TIMED_OUT, queued, true, false, None)
      else if dqbuf.None? then Dequeued(DEQ_DQBUF_FAILED, queued, t > 0, true, None)
      else
        var q := queued - {dqbuf.value.index};
        if Flagged(dqbuf.value) then Dequeued(DEQ_BUFFER_ERROR, q, t > 0, true, dqbuf)
        else Dequeued(0, q, t > 0, true, dqbuf)
  }

  /**
   * The first slot below `count` at which mapping fails, because
   * `VIDIOC_QUERYBUF` fails or `mmap` returns `MAP_FAILED`; `count` if none.
   */
  function FirstFailure(querybuf: seq<Option<BufInfo>>, mmap: seq<int>, count: nat): (k: nat)
    requires count <= |querybuf| && count <= |mmap|
    ensures k <= count
    ensures forall i :: 0 <= i < k ==> querybuf[i].Some? && mmap[i] != MAP_FAILED
    ensures k < count ==> querybuf[k].None? || mmap[k] == MAP_FAILED
  {
    FirstFailureFrom(querybuf, mmap, count, 0)
  }

  function FirstFailureFrom(querybuf: seq<Option<BufInfo>>, mmap: seq<int>, count: nat, i: nat): (k: nat)
    requires count <= |querybuf| && count <= |mmap| && i <= count
    requires forall j :: 0 <= j < i ==> querybuf[j].Some? && mmap[j] != MAP_FAILED
    ensures i <= k <= count
    ensures forall j :: 0 <= j < k ==> querybuf[j].Some? && mmap[j] != MAP_FAILED
    ensures k < count ==> querybuf[k].None? || mmap[k] == MAP_FAILED
    decreases count - i
  {
    if i == count || querybuf[i].None? || mmap[i] == MAP_FAILED then i
    else FirstFailureFrom(querybuf, mmap, count, i + 1)
  }

  /** Table entry `e` after `_map_frames` has queried and mapped its slot. */
  function MappedEntry(e: FrameBuffer, q: Option<BufInfo>, address: int): FrameBuffer
  {
    if q.None? then e
    else if address == MAP_FAILED then e.(address := MAP_FAILED)
    else e.(address := address, length := q.value.length)
  }

  /**
   * The `munmap` calls `_unmap_frames(|s|, s)` makes, in order: one per
   * entry, highest index first.
   */
  function Unmaps(s: seq<FrameBuffer>): (r: seq<Region>)
    ensures |r| == |s|
    ensures forall j :: 0 <= j < |s| ==> r[j] == RegionOf(s[|s| - 1 - j])
  {
    if s == [] then [] else Unmaps(s[1..]) + [RegionOf(s[0])]
  }

  /** The driver results `_map_frames` may be given: one per slot. */
  predicate MapOracles(reqbufs: Option<int>, querybuf: seq<Option<BufInfo>>, mmap: seq<int>, munmapOk: seq<bool>)
  {
    (reqbufs.Some? ==> 0 <= reqbufs.value <= VIDEO_MAX_FRAME)
    && |querybuf| == VIDEO_MAX_FRAME && |mmap| == VIDEO_MAX_FRAME && |munmapOk| == VIDEO_MAX_FRAME
  }

  /**
   * What `_map_frames` does to the frame table `before`, giving `after`,
   * the result `n` and the `munmap` calls `unmapped`: with `reqbufs` the
   * count `VIDIOC_REQBUFS` grants (None when it fails), `querybuf[i]` and
   * `mmap[i]` the results for slot `i`.
   */
  predicate MapEffect(before: seq<FrameBuffer>, after: seq<FrameBuffer>, n: int, unmapped: seq<Region>,
                      reqbufs: Option<int>, querybuf: seq<Option<BufInfo>>, mmap: seq<int>)
    requires |before| == VIDEO_MAX_FRAME && |after| == VIDEO_MAX_FRAME
    requires reqbufs.Some? ==> 0 <= reqbufs.value <= VIDEO_MAX_FRAME
    requires |querybuf| == VIDEO_MAX_FRAME && |mmap| == VIDEO_MAX_FRAME
  {
    if reqbufs.None? then
      n == -1 && unmapped == [] && after == before
    else
      var count := reqbufs.value;
      var k := FirstFailure(querybuf, mmap, count);
      (forall i :: 0 <= i < VIDEO_MAX_FRAME ==>
         after[i] == if i <= k && i < count then MappedEntry(before[i], querybuf[i], mmap[i]) else before[i])
      && (k == count ==> n == count && unmapped == [])
      && (k < count ==> n == -1 && unmapped == Unmaps(after[..k]))
  }

  /** The format requested in `pref` is what `VIDIOC_S_FMT` answered. */
  predicate Matches(pref: VideoFormat, answer: Option<PixFormat>)
  {
    answer.Some?
    && answer.value.width == pref.width
    && answer.value.height == pref.height
    && answer.value.pixelFormat == Fourcc.FourccInteger(pref.pixelFormat)
  }

  /** The first of the `n` preferences the driver accepts unchanged, or -1. */
  function FirstMatch(prefs: seq<VideoFormat>, n: int, sfmt: seq<Option<PixFormat>>): (sel: int)
    requires n <= |prefs| && n <= |sfmt|
    ensures sel == -1 || 0 <= sel < n
    ensures sel >= 0 ==> Matches(prefs[sel], sfmt[sel])
    ensures forall i :: 0 <= i < n && (sel == -1 || i < sel) ==> !Matches(prefs[i], sfmt[i])
  {
    FirstMatchFrom(prefs, n, sfmt, 0)
  }

  function FirstMatchFrom(prefs: seq<VideoFormat>, n: int, sfmt: seq<Option<PixFormat>>, i: nat): (sel: int)
    requires n <= |prefs| && n <= |sfmt|
    requires forall j :: 0 <= j < i && j < n ==> !Matches(prefs[j], sfmt[j])
    ensures sel == -1 || 0 <= sel < n
    ensures sel >= 0 ==> i <= sel && Matches(prefs[sel], sfmt[sel])
    ensures forall j :: 0 <= j < n && (sel == -1 || j < sel) ==> !Matches(prefs[j], sfmt[j])
    decreases n - i
  {
    if n <= i then -1
    else if Matches(prefs[i], sfmt[i]) then i
    else FirstMatchFrom(prefs, n, sfmt, i + 1)
  }

  /** Index of the first NUL in a NUL-terminated byte string. */
  function CStrLen(s: seq<bv8>): (n: nat)
    requires 0 in s
    ensures n < |s| && s[n] == 0
    ensures forall i :: 0 <= i < n ==> s[i] != 0
  {
    if s[0] == 0 then 0 else 1 + CStrLen(s[1..])
  }

  /**
   * `strcpy(dst, src)` into a destination as long as `src`: the characters
   * of `src` up to and including its first NUL, then what `dst` held.
   */
  function StrCpy(dst: seq<bv8>, src: seq<bv8>): (r: seq<bv8>)
    requires |dst| == |src| && 0 in src
    ensures |r| == |dst|
    ensures forall i :: 0 <= i < |r| ==> r[i] == if i <= CStrLen(src) then src[i] else dst[i]
  {
    if src[0] == 0 then [0] + dst[1..]
    else
      var rest := StrCpy(dst[1..], src[1..]);
      assert CStrLen(src) == 1 + CStrLen(src[1..]);
      [src[0]] + rest
  }

  /** The configured format once `_config` has accepted the driver's answer `f`. */
  function Adopt(format: VideoFormat, f: PixFormat): VideoFormat
  {
    var text := Fourcc.FourccString(f.pixelFormat);
    VideoFormat(f.width, f.height, StrCpy(format.pixelFormat, text))
  }

  /** `strncpy(dst, src, n)` for a NUL-free `src`: `src` cut or padded with NULs to `n`. */
  function StrNCpy(src: seq<char>, n: nat): (r: seq<char>)
    ensures |r| == n
    ensures forall i :: 0 <= i < n ==> r[i] == if i < |src| then src[i] else '\0'
  {
    if |src| >= n then src[..n] else src + seq(n - |src|, _ => '\0')
  }

  /** What `*len` and `*ubuf` hold for `_snap`; `data` is None for a NULL buffer. */
  datatype CallerBuffer = CallerBuffer(len: nat, data: Option<seq<byte>>)

  /** The caller's promise: a non-NULL buffer holds at least `*len` bytes. */
  predicate CallerOk(caller: Option<CallerBuffer>)
  {
    caller.Some? && caller.value.data.Some? ==> caller.value.len <= |caller.value.data.value|
  }

  /** The end of `_snap`: its result, the caller's buffer, and whether it called `realloc`. */
  datatype Copy = Copy(rc: int, out: Option<CallerBuffer>, reallocated: bool)

  /**
   * The copy step of `_snap`, entered with `econd`, for the dequeued buffer
   * `b` whose mapped memory holds `frame`; `caller` is None when `ubuf` or
   * `len` is NULL.
   */
  function CopyOut(econd: int, caller: Option<CallerBuffer>, reallocOk: bool,
                   b: DriverBuffer, frame: seq<byte>): Copy
    requires b.bytesused <= |frame| && CallerOk(caller)
  {
    if caller.None? then Copy(econd, caller, false)
    else
      var c := caller.value;
      var used := b.bytesused;
      if c.len < used && !reallocOk then Copy(-1, caller, true)
      else if c.len < used then Copy(econd, Some(CallerBuffer(used, Some(frame[..used]))), true)
      else if c.data.Some? then Copy(econd, Some(CallerBuffer(used, Some(frame[..used] + c.data.value[used..]))), false)
      else Copy(-1, Some(CallerBuffer(0, None)), false)
  }

  /** One pass of `_snap`'s loop: `select`, `VIDIOC_DQBUF` and the `errno` it then reads. */
  datatype Attempt = Attempt(wait: Wait, dqbuf: Option<DriverBuffer>, errno: int)

  /** `errno` as `_snap` finds it: `select` sets `EINTR`; otherwise as the attempt left it. */
  function ErrnoAfter(a: Attempt): int
  {
    if a.wait == Interrupted then EINTR else a.errno
  }

  /** The errors after which `_snap` tries again. */
  predicate Retryable(a: Attempt)
  {
    ErrnoAfter(a) == EAGAIN || ErrnoAfter(a) == EIO
  }

  /** An attempt that leaves `_snap`'s loop whatever the slot set. */
  predicate Ends(a: Attempt)
  {
    (a.wait == Ready && a.dqbuf.Some? && !Flagged(a.dqbuf.value)) || !Retryable(a)
  }

  /** Some attempt from `k` on ends the loop. */
  predicate EndsFrom(attempts: seq<Attempt>, k: nat)
  {
    exists j :: k <= j < |attempts| && Ends(attempts[j])
  }

  /** The state `_snap`'s loop leaves: slot set, `econd`, and the last buffer `VIDIOC_DQBUF` filled. */
  datatype LoopEnd = LoopEnd(queued: set<Slot>, econd: int, buffer: DriverBuffer)

  /** The `struct v4l2_buffer` of `_snap` before any `VIDIOC_DQBUF` fills it. */
  const NoBuffer: DriverBuffer := DriverBuffer(0, 0, 0, 0)

  /**
   * `_snap`'s loop from attempt `k` on, with slot set `queued` and the
   * buffer contents `buffer`: while some slot is queued, dequeue with a
   * two-second timeout, retry on `EAGAIN` or `EIO`, stop otherwise.
   */
  function RetryLoop(queued: set<Slot>, dequeueTimeout: int, attempts: seq<Attempt>,
                     k: nat, buffer: DriverBuffer): (e: LoopEnd)
    requires k <= |attempts| && EndsFrom(attempts, k)
    ensures e.queued <= queued
    ensures e.econd == 0 || e.econd == -1
    ensures e.buffer == buffer || exists j :: k <= j < |attempts| && attempts[j].dqbuf == Some(e.buffer)
    decreases |attempts| - k
  {
    if queued == {} then LoopEnd(queued, 0, buffer)
    else
      var a := attempts[k];
      var d := DequeueSpec(queued, SNAP_TIMEOUT, dequeueTimeout, a.wait, a.dqbuf);
      var b := if d.buffer.Some? then d.buffer.value else buffer;
      if d.rc != 0 && Retryable(a) then
        assert !Ends(a);
        assert EndsFrom(attempts, k + 1);
        RetryLoop(d.queued, dequeueTimeout, attempts, k + 1, b)
      else
        LoopEnd(d.queued, if d.rc != 0 then -1 else 0, b)
  }

  /** Which of `video_open`'s checks stops it, in the order the code makes them. */
  datatype OpenOutcome =
    | Opened | StatFailed | NotCharDevice | OpenFailed
    | QueryCapFailed | NotCaptureDevice | NoStreaming | OutOfMemory

  /**
   * `video_open`'s checks: `stat` (None when it fails, else whether the
   * path is a character device), the descriptor `open` returns, the
   * capability word `VIDIOC_QUERYCAP` reports, and `calloc`.
   */
  function OpenCheck(stat: Option<bool>, fd: int, caps: Option<bv32>, callocOk: bool): OpenOutcome
  {
    if stat.None? then StatFailed
    else if !stat.value then NotCharDevice
    else if fd == -1 then OpenFailed
    else if caps.None? then QueryCapFailed
    else if caps.value & CAP_VIDEO_CAPTURE == 0 then NotCaptureDevice
    else if caps.value & CAP_STREAMING == 0 then NoStreaming
    else if !callocOk then OutOfMemory
    else Opened
  }

  /** Whether `video_open` has to close the descriptor it opened. */
  predicate ClosesFd(o: OpenOutcome)
  {
    o == QueryCapFailed || o == NotCaptureDevice || o == NoStreaming || o == OutOfMemory
  }

  // ---------------------------------------------------------------------
  // Loop invariants and their step lemmas.
  // ---------------------------------------------------------------------

  /** Every slot of `a` is below every slot of `b`. */
  predicate Below(a: set<Slot>, b: set<Slot>)
  {
    forall j, i :: j in a && i in b ==> j < i
  }

  /** `_enqueue`'s loop: `pending` split into the accepted `done` and the `rest` still to submit. */
  predicate EnqueueSplit(pending: set<Slot>, ok: set<Slot>, done: set<Slot>, rest: set<Slot>)
  {
    done + rest == pending && done !! rest && Below(done, rest) && done <= ok
  }

  function Elems(s: seq<Slot>): set<Slot>
  {
    set k | 0 <= k < |s| :: s[k]
  }

  predicate Increasing(s: seq<Slot>)
  {
    forall k, l :: 0 <= k < l < |s| ==> s[k] < s[l]
  }

  lemma EnqueueAccept(pending: set<Slot>, ok: set<Slot>, done: set<Slot>, rest: set<Slot>, idx: Slot)
    requires EnqueueSplit(pending, ok, done, rest)
    requires idx in rest && idx in ok && forall j :: j in rest ==> idx <= j
    ensures EnqueueSplit(pending, ok, done + {idx}, rest - {idx})
  {
  }

  lemma EnqueueRefuse(pending: set<Slot>, ok: set<Slot>, done: set<Slot>, rest: set<Slot>, idx: Slot)
    requires EnqueueSplit(pending, ok, done, rest)
    requires idx in rest && idx in pending - ok && forall j :: j in rest ==> idx <= j
    ensures Submitted(pending, ok) == done
    ensures Refused(pending, ok) == {idx}
  {
    assert Lowest(pending - ok) == idx;
  }

  lemma EnqueueExhausted(pending: set<Slot>, ok: set<Slot>, done: set<Slot>)
    requires EnqueueSplit(pending, ok, done, {})
    ensures Submitted(pending, ok) == done
    ensures Refused(pending, ok) == {}
  {
    assert pending - ok == {};
  }

  lemma AppendIncreasing(s: seq<Slot>, done: set<Slot>, rest: set<Slot>, idx: Slot)
    requires Increasing(s) && Elems(s) == done && Below(done, rest) && idx in rest
    ensures Increasing(s + [idx]) && Elems(s + [idx]) == done + {idx}
  {
    var t := s + [idx];
    assert forall k :: 0 <= k < |s| ==> t[k] == s[k];
    assert t[|s|] == idx;
    assert forall k :: 0 <= k < |s| ==> s[k] in done;
  }

  /** Adding one element to both sides of a union keeps it a union. */
  lemma AddOne<T>(q: set<T>, q0: set<T>, done: set<T>, x: T)
    requires q == q0 + done
    ensures q + {x} == q0 + (done + {x})
  {
  }

  lemma UnmapsStep(s: seq<FrameBuffer>, i: nat, m: nat)
    requires i < m <= |s|
    ensures Unmaps(s[i..m]) == Unmaps(s[i + 1..m]) + [RegionOf(s[i])]
  {
    assert s[i..m][1..] == s[i + 1..m];
  }

  /** An attempt at which `_snap`'s loop goes on does not end it. */
  lemma RetryGoesOn(attempts: seq<Attempt>, k: nat)
    requires k < |attempts| && EndsFrom(attempts, k) && !Ends(attempts[k])
    ensures EndsFrom(attempts, k + 1)
  {
    var j :| k <= j < |attempts| && Ends(attempts[j]);
    assert j != k;
  }

  // ---------------------------------------------------------------------
  // The handle.
  // ---------------------------------------------------------------------

  /**
   * `_unmap_frames(n, arr)`: unmap entries n-1 down to 0, carrying on past
   * failures; -1 if any `munmap` failed (`munmapOk[i]` is the result for
   * entry `i`), else 0.
   */
  method UnmapFrames(n: int, arr: array<FrameBuffer>, munmapOk: seq<bool>) returns (err: int, unmapped: seq<Region>)
    requires n <= arr.Length && n <= |munmapOk|
    ensures var m := if n < 0 then 0 else n;
      unmapped == Unmaps(arr[..m])
      && (err == -1 <==> exists i :: 0 <= i < m && !munmapOk[i])
      && (err == 0 || err == -1)
  {
    var m := if n < 0 then 0 else n;
    err := 0;
    unmapped := [];
    var i := m;
    while i > 0
      invariant 0 <= i <= m
      invariant unmapped == Unmaps(arr[i..m])
      invariant err == -1 <==> exists j :: i <= j < m && !munmapOk[j]
      invariant err == 0 || err == -1
    {
      i := i - 1;
      UnmapsStep(arr[..], i, m);
      assert arr[i..m] == arr[..][i..m] && arr[i + 1..m] == arr[..][i + 1..m];
      unmapped := unmapped + [RegionOf(arr[i])];
      if !munmapOk[i] {
        err := -1;
      }
    }
    assert arr[0..m] == arr[..m];
  }

  class VideoState {
    /** `name[MAXLEN_DEVPATH + 1]`: the device path as `strncpy` left it. */
    var name: seq<char>
    var fd: int
    /** The format `_config` last adopted. */
    var format: VideoFormat
    var dequeueTimeout: int
    /** The slots the kernel owns: `queued` as a set of bit positions. */
    var queued: set<Slot>
    /** The number of mapped buffers, or -1 after a failed mapping. */
    var frameCount: int
    /** `frame[VIDEO_MAX_FRAME]`. */
    const frame: array<FrameBuffer>
    /** Whether `VIDIOC_STREAMON` succeeded more recently than `VIDIOC_STREAMOFF`. */
    ghost var streaming: bool

    ghost predicate Valid()
      reads this
    {
      frame.Length == VIDEO_MAX_FRAME
      && -1 <= frameCount <= VIDEO_MAX_FRAME
      && |name| == MAXLEN_DEVPATH + 1
    }

    /** A handle as `calloc` returns it: every field zero. */
    ghost predicate Zeroed()
      reads this, frame
    {
      name == seq(MAXLEN_DEVPATH + 1, _ => '\0')
      && fd == 0
      && format == VideoFormat(0, 0, [0, 0, 0, 0, 0])
      && dequeueTimeout == 0
      && queued == {}
      && frameCount == 0
      && frame.Length == VIDEO_MAX_FRAME
      && (forall i :: 0 <= i < frame.Length ==> frame[i] == FrameBuffer(0, 0, 0))
      && !streaming
    }

    /** `calloc(1, sizeof(struct video_state))`. */
    constructor ()
      ensures Valid() && Zeroed()
      ensures fresh(frame)
    {
      name := seq(MAXLEN_DEVPATH + 1, _ => '\0');
      fd := 0;
      format := VideoFormat(0, 0, [0, 0, 0, 0, 0]);
      dequeueTimeout := 0;
      queued := {};
      frameCount := 0;
      frame := new FrameBuffer[VIDEO_MAX_FRAME](_ => FrameBuffer(0, 0, 0));
      streaming := false;
    }

    /** `_is_queued(vs, i)`. */
    predicate IsQueued(i: Slot)
      reads this
    {
      i in queued
    }

    /** `_set_unqueued(vs, i)`: slot `i` leaves the set, no other slot changes. */
    method SetUnqueued(i: Slot)
      modifies this`queued
      ensures queued == old(queued) - {i}
      ensures !IsQueued(i)
      ensures forall j :: j != i ==> (IsQueued(j) <==> old(IsQueued(j)))
    {
      queued := queued - {i};
    }

    /** `_start`: `VIDIOC_STREAMON`; the slot set is not touched. */
    method Start(streamonOk: bool) returns (rc: int)
      modifies this`streaming
      ensures streamonOk ==> rc == 0 && streaming
      ensures !streamonOk ==> rc == -1 && streaming == old(streaming)
    {
      if !streamonOk {
        return -1;
      }
      streaming := true;
      return 0;
    }

    /** `_stop`: `VIDIOC_STREAMOFF`, which takes every buffer back from the driver. */
    method Stop(streamoffOk: bool) returns (rc: int)
      modifies this`queued, this`streaming
      ensures streamoffOk ==> rc == 0 && queued == {} && !streaming
      ensures streamoffOk ==> forall i :: !IsQueued(i)
      ensures !streamoffOk ==> rc == -1 && queued == old(queued) && streaming == old(streaming)
    {
      if !streamoffOk {
        return -1;
      }
      streaming := false;
      queued := {};
      return 0;
    }

    /**
     * `_enqueue1(vs, id)`: `VIDIOC_QBUF` slot `id` unless it is queued
     * already; `issued` says whether the ioctl was made.
     */
    method Enqueue1(id: Slot, qbufOk: bool) returns (rc: int, issued: bool)
      modifies this`queued
      ensures rc == 0
      ensures issued <==> id !in old(queued)
      ensures queued == Enqueue1Effect(old(queued), id, qbufOk)
    {
      rc := 0;
      issued := false;
      if !IsQueued(id) {
        issued := true;
        if qbufOk {
          queued := queued + {id};
        }
      }
    }

    /**
     * `_enqueue(vs, flags)`: `VIDIOC_QBUF` the requested slots not yet
     * queued, lowest first, up to the first that fails.  `qbufOk` holds the
     * slots whose `VIDIOC_QBUF` would succeed; `issued` lists the slots
     * submitted, in order.
     */
    method Enqueue(flags: set<Slot>, qbufOk: set<Slot>) returns (rc: int, issued: seq<Slot>)
      modifies this`queued
      ensures rc == 0
      ensures queued == old(queued) + Submitted(flags - old(queued), qbufOk)
      ensures Increasing(issued)
      ensures Elems(issued) == Submitted(flags - old(queued), qbufOk) + Refused(flags - old(queued), qbufOk)
    {
      ghost var q0 := queued;
      ghost var pending := flags - queued;
      var rest := flags - queued;
      ghost var done: set<Slot> := {};
      issued := [];
      rc := 0;
      while rest != {}
        invariant EnqueueSplit(pending, qbufOk, done, rest)
        invariant queued == q0 + done
        invariant Elems(issued) == done && Increasing(issued)
        decreases |rest|
      {
        var idx := Lowest(rest);
        AppendIncreasing(issued, done, rest, idx);
        issued := issued + [idx];
        if idx !in qbufOk {
          EnqueueRefuse(pending, qbufOk, done, rest, idx);
          return;
        }
        EnqueueAccept(pending, qbufOk, done, rest, idx);
        AddOne(queued, q0, done, idx);
        queued := queued + {idx};
        rest := rest - {idx};
        done := done + {idx};
      }
      EnqueueExhausted(pending, qbufOk, done);
    }

    /**
     * `_dequeue(vs, timeout, fr)`, given what `select` (`wait`) and
     * `VIDIOC_DQBUF` (`dqbuf`) would report.  `buffer` is what
     * `VIDIOC_DQBUF` filled into `fr`, `mem` what was stored in `fr->mem`.
     */
    method Dequeue(timeout: int, wait: Wait, dqbuf: Option<DriverBuffer>)
      returns (rc: int, selected: bool, dqbufIssued: bool, buffer: Option<DriverBuffer>, mem: Option<int>)
      requires Valid()
      modifies this`queued
      ensures var d := DequeueSpec(old(queued), timeout, dequeueTimeout, wait, dqbuf);
        rc == d.rc && queued == d.queued && selected == d.selected
        && dqbufIssued == d.dqbufIssued && buffer == d.buffer
      ensures mem == if rc == 0 then Some(frame[buffer.value.index].address) else None
    {
      selected, dqbufIssued, buffer, mem := false, false, None, None;
      if queued == {} && timeout != DEQ_TIMEOUT_NONE {
        return -1, selected, dqbufIssued, buffer, mem;
      }
      var t := timeout;
      if t == DEQ_TIMEOUT_DEFAULT {
        t := dequeueTimeout;
      }
      if t > 0 {
        selected := true;
        if wait == Interrupted {
          return DEQ_INTERRUPTED, selected, dqbufIssued, buffer, mem;
        }
        if wait == TimedOut {
          return DEQ_TIMED_OUT, selected, dqbufIssued, buffer, mem;
        }
      }
      dqbufIssued := true;
      if dqbuf.None? {
        return DEQ_DQBUF_FAILED, selected, dqbufIssued, buffer, mem;
      }
      buffer := dqbuf;
      SetUnqueued(dqbuf.value.index);
      if dqbuf.value.flags & BUF_FLAG_ERROR != 0 {
        return DEQ_BUFFER_ERROR, selected, dqbufIssued, buffer, mem;
      }
      mem := Some(frame[dqbuf.value.index].address);
      rc := 0;
    }

    /**
     * `_map_frames(fd, VIDEO_MAX_FRAME, frame)`: ask for buffers, then query
     * and map each granted slot in turn; on the first failure unmap what was
     * mapped and return -1, else the number granted.
     */
    method MapFrames(reqbufs: Option<int>, querybuf: seq<Option<BufInfo>>, mmap: seq<int>, munmapOk: seq<bool>)
      returns (n: int, unmapped: seq<Region>)
      requires Valid() && MapOracles(reqbufs, querybuf, mmap, munmapOk)
      modifies frame
      ensures -1 <= n <= VIDEO_MAX_FRAME
      ensures MapEffect(old(frame[..]), frame[..], n, unmapped, reqbufs, querybuf, mmap)
    {
      unmapped := [];
      if reqbufs.None? {
        return -1, unmapped;
      }
      var count := reqbufs.value;
      n := 0;
      while n < count
        invariant 0 <= n <= count
        invariant forall i :: 0 <= i < n ==> querybuf[i].Some? && mmap[i] != MAP_FAILED
        invariant forall i :: 0 <= i < VIDEO_MAX_FRAME ==>
          frame[i] == if i < n then MappedEntry(old(frame[i]), querybuf[i], mmap[i]) else old(frame[i])
      {
        if querybuf[n].None? {
          break;
        }
        frame[n] := frame[n].(address := mmap[n]);
        if mmap[n] == MAP_FAILED {
          break;
        }
        frame[n] := frame[n].(length := querybuf[n].value.length);
        n := n + 1;
      }
      if n < count {
        assert FirstFailure(querybuf, mmap, count) == n;
        var _, u := UnmapFrames(n, frame, munmapOk);
        unmapped := u;
        n := -1;
      }
    }

    /**
     * `_config(vs, pref, n)`: offer the `n` preferences in order until the
     * driver accepts one unchanged (`sfmt[i]` is its answer to the i-th
     * `VIDIOC_S_FMT`, None when the ioctl fails), adopt it, then map the
     * buffers whatever the outcome.
     */
    method Config(prefs: seq<VideoFormat>, n: int, sfmt: seq<Option<PixFormat>>,
                  reqbufs: Option<int>, querybuf: seq<Option<BufInfo>>, mmap: seq<int>, munmapOk: seq<bool>)
      returns (rc: int, unmapped: seq<Region>)
      requires Valid() && n <= |prefs| && n <= |sfmt|
      requires MapOracles(reqbufs, querybuf, mmap, munmapOk)
      modifies this`format, this`frameCount, frame
      ensures Valid()
      ensures var sel := FirstMatch(prefs, n, sfmt);
        format == (if sel >= 0 then Adopt(old(format), sfmt[sel].value) else old(format))
        && rc == (if frameCount <= 0 then -2 else sel)
      ensures MapEffect(old(frame[..]), frame[..], frameCount, unmapped, reqbufs, querybuf, mmap)
    {
      var selection := -1;
      var chosen := PixFormat(0, 0, 0);
      var i := 0;
      while i < n
        invariant 0 <= i <= if n < 0 then 0 else n
        invariant forall j :: 0 <= j < i ==> !Matches(prefs[j], sfmt[j])
      {
        var code := Fourcc.FourccInteger(prefs[i].pixelFormat);
        if sfmt[i].None? {
          i := i + 1;
          continue;
        }
        var answer := sfmt[i].value;
        if prefs[i].width != answer.width {
          i := i + 1;
          continue;
        }
        if prefs[i].height != answer.height {
          i := i + 1;
          continue;
        }
        if code != answer.pixelFormat {
          i := i + 1;
          continue;
        }
        selection := i;
        chosen := answer;
        break;
      }
      assert selection == FirstMatch(prefs, n, sfmt);
      if 0 <= selection {
        format := VideoFormat(chosen.width, chosen.height,
                              StrCpy(format.pixelFormat, Fourcc.FourccString(chosen.pixelFormat)));
      }
      var count, u := MapFrames(reqbufs, querybuf, mmap, munmapOk);
      frameCount := count;
      unmapped := u;
      if frameCount <= 0 {
        return -2, unmapped;
      }
      rc := selection;
    }

    /**
     * `_snap(vs, len, ubuf)`: queue slot 0, start streaming, dequeue until
     * a frame arrives or a fatal error, stop streaming, and copy the frame
     * into the caller's buffer, growing it with `realloc` only when it is
     * too small.  `memory[i]` is what the mapped buffer of slot `i` holds.
     */
    method Snap(caller: Option<CallerBuffer>, qbuf0Ok: bool, streamonOk: bool, attempts: seq<Attempt>,
                streamoffOk: bool, reallocOk: bool, memory: seq<seq<byte>>)
      returns (rc: int, result: Option<CallerBuffer>)
      requires Valid() && !streaming
      requires EndsFrom(attempts, 0)
      requires |memory| == VIDEO_MAX_FRAME
      requires forall a :: a in attempts && a.dqbuf.Some? ==> a.dqbuf.value.bytesused <= |memory[a.dqbuf.value.index]|
      requires CallerOk(caller)
      modifies this`queued, this`streaming
      ensures var q1 := Enqueue1Effect(old(queued), 0, qbuf0Ok);
        !streamonOk ==> rc == -1 && result == caller && queued == q1 && !streaming
      ensures var q1 := Enqueue1Effect(old(queued), 0, qbuf0Ok);
        streamonOk ==>
          var e := RetryLoop(q1, dequeueTimeout, attempts, 0, NoBuffer);
          var c := CopyOut(if streamoffOk then e.econd else -1, caller, reallocOk, e.buffer, memory[e.buffer.index]);
          queued == (if streamoffOk then {} else e.queued)
          && streaming == !streamoffOk
          && rc == c.rc && result == c.out
    {
      var _, _ := Enqueue1(0, qbuf0Ok);
      var started := Start(streamonOk);
      if started < 0 {
        return -1, caller;
      }
      var econd, buf := DequeueFrame(attempts, memory);
      var stopped := Stop(streamoffOk);
      if stopped < 0 {
        econd := -1;
      }
      rc, result := CopyFrame(econd, caller, reallocOk, buf, memory[buf.index]);
    }

    /**
     * The loop of `_snap`: while some slot is queued, dequeue with a
     * two-second timeout; go round again on `EAGAIN` or `EIO`, otherwise
     * stop, with `econd` -1 if the dequeue failed.  `buf` is the
     * `struct v4l2_buffer` as the last successful `VIDIOC_DQBUF` left it.
     */
    method DequeueFrame(attempts: seq<Attempt>, memory: seq<seq<byte>>) returns (econd: int, buf: DriverBuffer)
      requires Valid() && EndsFrom(attempts, 0)
      requires |memory| == VIDEO_MAX_FRAME
      requires forall a :: a in attempts && a.dqbuf.Some? ==> a.dqbuf.value.bytesused <= |memory[a.dqbuf.value.index]|
      modifies this`queued
      ensures RetryLoop(old(queued), dequeueTimeout, attempts, 0, NoBuffer) == LoopEnd(queued, econd, buf)
      ensures buf.bytesused <= |memory[buf.index]|
    {
      econd := 0;
      buf := NoBuffer;
      ghost var q1 := queued;
      var k := 0;
      while queued != {}
        invariant 0 <= k <= |attempts| && EndsFrom(attempts, k)
        invariant buf.bytesused <= |memory[buf.index]|
        invariant RetryLoop(q1, dequeueTimeout, attempts, 0, NoBuffer) == RetryLoop(queued, dequeueTimeout, attempts, k, buf)
        invariant econd == 0
        decreases |attempts| - k
      {
        var a := attempts[k];
        ghost var e := RetryLoop(queued, dequeueTimeout, attempts, k, buf);
        var r, _, _, b, _ := Dequeue(SNAP_TIMEOUT, a.wait, a.dqbuf);
        if b.Some? {
          assert a in attempts;
          buf := b.value;
        }
        if r != 0 {
          var errno := ErrnoAfter(a);
          if errno == EAGAIN || errno == EIO {
            RetryGoesOn(attempts, k);
            k := k + 1;
            continue;
          }
          econd := -1;
        }
        assert e == LoopEnd(queued, econd, buf);
        break;
      }
    }

    /**
     * The copy at the end of `_snap`: grow the caller's buffer with
     * `realloc` if it is shorter than the frame, then copy `bytesused`
     * bytes of the mapped buffer into it.
     */
    method CopyFrame(econd: int, caller: Option<CallerBuffer>, reallocOk: bool, buf: DriverBuffer, frameData: seq<byte>)
      returns (rc: int, result: Option<CallerBuffer>)
      requires buf.bytesused <= |frameData| && CallerOk(caller)
      ensures Copy(rc, result, caller.Some? && caller.value.len < buf.bytesused)
           == CopyOut(econd, caller, reallocOk, buf, frameData)
    {
      rc, result := econd, caller;
      if caller.Some? {
        var c := caller.value;
        var data := c.data;
        if c.len < buf.bytesused {
          if !reallocOk {
            return -1, caller;
          }
          data := Some(seq(buf.bytesused, _ => 0));
          assert data.value[buf.bytesused..] == [];
        }
        if data.Some? {
          result := Some(CallerBuffer(buf.bytesused, Some(frameData[..buf.bytesused] + data.value[buf.bytesused..])));
          assert c.len < buf.bytesused ==> frameData[..buf.bytesused] + data.value[buf.bytesused..] == frameData[..buf.bytesused];
        } else {
          result := Some(CallerBuffer(0, None));
          rc := -1;
        }
      }
    }

    /**
     * `_destroy(vs)`: unmap the `frame_count` mapped buffers and close the
     * descriptor; returns the `munmap` calls and the descriptor closed.
     */
    method Destroy(munmapOk: seq<bool>) returns (unmapped: seq<Region>, closedFd: int)
      requires Valid() && |munmapOk| == VIDEO_MAX_FRAME
      ensures unmapped == Unmaps(frame[..if frameCount < 0 then 0 else frameCount])
      ensures frameCount <= 0 ==> unmapped == []
      ensures closedFd == fd
    {
      var _, u := UnmapFrames(frameCount, frame, munmapOk);
      unmapped := u;
      closedFd := fd;
    }
  }

  /**
   * `video_open(devpath)`, given the results of `stat`, `open`,
   * `VIDIOC_QUERYCAP` and `calloc`.  `closed` is the descriptor closed on
   * the way out, if any.
   */
  method VideoOpen(devpath: seq<char>, stat: Option<bool>, openFd: int, caps: Option<bv32>, callocOk: bool)
    returns (vs: VideoState?, closed: Option<int>)
    requires forall i :: 0 <= i < |devpath| ==> devpath[i] != '\0'
    ensures var o := OpenCheck(stat, openFd, caps, callocOk);
      (vs != null <==> o == Opened)
      && closed == (if ClosesFd(o) then Some(openFd) else None)
    ensures vs != null ==>
      fresh(vs) && fresh(vs.frame) && vs.Valid()
      && vs.name == StrNCpy(devpath, MAXLEN_DEVPATH + 1)
      && vs.fd == openFd
      && vs.dequeueTimeout == 0 && vs.queued == {} && vs.frameCount == 0 && !vs.streaming
      && vs.format == VideoFormat(0, 0, [0, 0, 0, 0, 0])
      && (forall i :: 0 <= i < VIDEO_MAX_FRAME ==> vs.frame[i] == FrameBuffer(0, 0, 0))
  {
    vs, closed := null, None;
    if stat.None? {
      return;
    }
    if !stat.value {
      return;
    }
    if openFd == -1 {
      return;
    }
    if caps.None? || caps.value & CAP_VIDEO_CAPTURE == 0 || caps.value & CAP_STREAMING == 0 || !callocOk {
      closed := Some(openFd);
      return;
    }
    vs := new VideoState();
    vs.name := StrNCpy(devpath, MAXLEN_DEVPATH + 1);
    vs.fd := openFd;
  }
}

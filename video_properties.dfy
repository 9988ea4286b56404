/**
 * Properties of the capture handle's operations, stated on the functions
 * that specify them in module Video.
 */
module VideoProperties {
  import opened Common
  import opened Video
  import Fourcc

  // ---- _enqueue ----------------------------------------------------------

  /**
   * A slot is submitted by `_enqueue` exactly when it is pending and no
   * pending slot at or below it is refused by the driver.
   */
  lemma SubmittedIff(pending: set<Slot>, ok: set<Slot>, j: Slot)
    ensures j in Submitted(pending, ok) <==> j in pending && forall i :: i in pending && i <= j ==> i in ok
  {
    var fail := pending - ok;
    if fail != {} {
      var l := Lowest(fail);
      assert Submitted(pending, ok) == set x | x in pending && x < l;
      if j in pending && forall i :: i in pending && i <= j ==> i in ok {
        if l <= j {
          assert false;
        }
      }
      if j in Submitted(pending, ok) {
        forall i | i in pending && i <= j
          ensures i in ok
        {
          assert i !in fail;
        }
      }
    } else {
      forall i | i in pending
        ensures i in ok
      {
        assert i !in fail;
      }
    }
  }

  /**
   * The refused slot, if any, is the lowest pending slot the driver
   * refuses, and every submitted slot lies below it.
   */
  lemma RefusedIsFirstFailure(pending: set<Slot>, ok: set<Slot>, r: Slot)
    requires r in Refused(pending, ok)
    ensures r in pending && r !in ok
    ensures forall i :: i in pending && i !in ok ==> r <= i
    ensures forall j :: j in Submitted(pending, ok) ==> j < r
  {
    var fail := pending - ok;
    assert fail != {};
    assert r == Lowest(fail);
    forall i | i in pending && i !in ok
      ensures r <= i
    {
      assert i in fail;
    }
    forall j | j in Submitted(pending, ok)
      ensures j < r
    {
      assert j in set x | x in pending && x < Lowest(fail);
    }
  }

  /** With no refusal every pending slot is submitted and none is refused. */
  lemma SubmittedAllWhenAccepted(pending: set<Slot>, ok: set<Slot>)
    requires pending <= ok
    ensures Submitted(pending, ok) == pending && Refused(pending, ok) == {}
  {
    assert pending - ok == {};
  }

  // ---- _dequeue ----------------------------------------------------------

  /**
   * With no slot queued and a timeout other than NONE, `_dequeue` returns -1
   * without waiting, without `VIDIOC_DQBUF` and without touching the set.
   */
  lemma DequeueFailsFast(timeout: int, dequeueTimeout: int, wait: Wait, dqbuf: Option<DriverBuffer>)
    requires timeout != DEQ_TIMEOUT_NONE
    ensures var d := DequeueSpec({}, timeout, dequeueTimeout, wait, dqbuf);
      d.rc == -1 && !d.selected && !d.dqbufIssued && d.queued == {} && d.buffer == None
  {
  }

  /**
   * `select` is called exactly when the fail-fast check passes and the
   * resolved timeout is positive; in particular NONE never waits.
   */
  lemma DequeueWaitsIff(queued: set<Slot>, timeout: int, dequeueTimeout: int, wait: Wait, dqbuf: Option<DriverBuffer>)
    ensures DequeueSpec(queued, timeout, dequeueTimeout, wait, dqbuf).selected
      <==> (queued != {} || timeout == DEQ_TIMEOUT_NONE) && ResolveTimeout(timeout, dequeueTimeout) > 0
    ensures timeout == DEQ_TIMEOUT_NONE ==> !DequeueSpec(queued, timeout, dequeueTimeout, wait, dqbuf).selected
  {
  }

  /** DEFAULT behaves as the handle's own timeout would. */
  lemma DequeueDefaultResolves(queued: set<Slot>, dequeueTimeout: int, other: int, wait: Wait, dqbuf: Option<DriverBuffer>)
    requires queued != {} && dequeueTimeout != DEQ_TIMEOUT_DEFAULT
    ensures DequeueSpec(queued, DEQ_TIMEOUT_DEFAULT, dequeueTimeout, wait, dqbuf)
         == DequeueSpec(queued, dequeueTimeout, other, wait, dqbuf)
  {
  }

  /**
   * Only a successful `VIDIOC_DQBUF` changes the slot set, and it removes
   * exactly the returned slot, error flag or not.
   */
  lemma DequeueClearsReturnedSlot(queued: set<Slot>, timeout: int, dequeueTimeout: int, wait: Wait, dqbuf: Option<DriverBuffer>)
    ensures var d := DequeueSpec(queued, timeout, dequeueTimeout, wait, dqbuf);
      (d.buffer.Some? ==> d.buffer == dqbuf && d.dqbufIssued && d.queued == queued - {dqbuf.value.index})
      && (d.buffer.None? ==> d.queued == queued)
  {
  }

  /** A dequeued buffer with the error flag set gives a nonzero result. */
  lemma DequeueRejectsFlagged(queued: set<Slot>, timeout: int, dequeueTimeout: int, wait: Wait, b: DriverBuffer)
    requires Flagged(b)
    ensures DequeueSpec(queued, timeout, dequeueTimeout, wait, Some(b)).rc != 0
  {
  }

  /** `_dequeue` returns 0 exactly when every gate passes and the buffer is clean. */
  lemma DequeueSucceedsIff(queued: set<Slot>, timeout: int, dequeueTimeout: int, wait: Wait, dqbuf: Option<DriverBuffer>)
    ensures DequeueSpec(queued, timeout, dequeueTimeout, wait, dqbuf).rc == 0
      <==> (queued != {} || timeout == DEQ_TIMEOUT_NONE)
           && (ResolveTimeout(timeout, dequeueTimeout) > 0 ==> wait == Ready)
           && dqbuf.Some? && !Flagged(dqbuf.value)
  {
  }

  // ---- _map_frames, _unmap_frames ----------------------------------------

  /**
   * A successful mapping returns the granted count, and every granted
   * slot holds the address `mmap` returned and the length the driver
   * reported; nothing is unmapped.
   */
  lemma MapSucceeded(before: seq<FrameBuffer>, after: seq<FrameBuffer>, n: int, unmapped: seq<Region>,
                     reqbufs: Option<int>, querybuf: seq<Option<BufInfo>>, mmap: seq<int>, munmapOk: seq<bool>)
    requires |before| == VIDEO_MAX_FRAME && |after| == VIDEO_MAX_FRAME
    requires MapOracles(reqbufs, querybuf, mmap, munmapOk)
    requires MapEffect(before, after, n, unmapped, reqbufs, querybuf, mmap)
    requires n >= 0
    ensures reqbufs == Some(n) && unmapped == []
    ensures forall i :: 0 <= i < n ==>
      after[i].address == mmap[i] != MAP_FAILED && after[i].length == querybuf[i].value.length
    ensures forall i :: n <= i < VIDEO_MAX_FRAME ==> after[i] == before[i]
  {
  }

  /**
   * A mapping that fails at slot `k` returns -1 after unmapping exactly
   * slots `k-1` down to 0, each at the address it had just been mapped at.
   */
  lemma MapRolledBack(before: seq<FrameBuffer>, after: seq<FrameBuffer>, n: int, unmapped: seq<Region>,
                      reqbufs: Option<int>, querybuf: seq<Option<BufInfo>>, mmap: seq<int>, munmapOk: seq<bool>)
    requires |before| == VIDEO_MAX_FRAME && |after| == VIDEO_MAX_FRAME
    requires MapOracles(reqbufs, querybuf, mmap, munmapOk)
    requires MapEffect(before, after, n, unmapped, reqbufs, querybuf, mmap)
    requires reqbufs.Some? && FirstFailure(querybuf, mmap, reqbufs.value) < reqbufs.value
    ensures var k := FirstFailure(querybuf, mmap, reqbufs.value);
      n == -1
      && |unmapped| == k
      && forall j :: 0 <= j < k ==>
           unmapped[j] == Region(mmap[k - 1 - j], querybuf[k - 1 - j].value.length)
  {
    var k := FirstFailure(querybuf, mmap, reqbufs.value);
    forall j | 0 <= j < k
      ensures unmapped[j] == Region(mmap[k - 1 - j], querybuf[k - 1 - j].value.length)
    {
      assert after[..k][k - 1 - j] == after[k - 1 - j];
    }
  }

  // ---- _config -----------------------------------------------------------

  /**
   * When the driver accepts a preference unchanged and its first code byte
   * is ASCII with no NUL among the four, the adopted format is that
   * preference: same size, same four characters.
   */
  lemma AdoptedIsRequested(format: VideoFormat, pref: VideoFormat, f: PixFormat)
    requires Matches(pref, Some(f))
    requires pref.pixelFormat[0] < 0x80
    requires forall i :: 0 <= i < 4 ==> pref.pixelFormat[i] != 0
    ensures Adopt(format, f).width == pref.width && Adopt(format, f).height == pref.height
    ensures Adopt(format, f).pixelFormat[..4] == pref.pixelFormat[..4]
  {
    var text := Fourcc.FourccString(f.pixelFormat);
    Fourcc.StringOfInteger(pref.pixelFormat);
    assert text[..4] == pref.pixelFormat[..4];
    assert CStrLen(text) == 4 by {
      forall i | 0 <= i < 4
        ensures text[i] != 0
      {
        assert text[i] == text[..4][i];
      }
    }
    var r := Adopt(format, f).pixelFormat;
    forall i | 0 <= i < 4
      ensures r[i] == pref.pixelFormat[i]
    {
      assert text[i] == text[..4][i];
    }
  }

  // ---- _snap -------------------------------------------------------------

  /**
   * A clean frame on the first attempt ends the loop with `econd` 0 and
   * that frame's buffer, its slot no longer queued.
   */
  lemma SnapCleanFirstFrame(queued: set<Slot>, dequeueTimeout: int, attempts: seq<Attempt>, b: DriverBuffer)
    requires |attempts| > 0 && attempts[0].wait == Ready && attempts[0].dqbuf == Some(b) && !Flagged(b)
    requires queued != {}
    ensures RetryLoop(queued, dequeueTimeout, attempts, 0, NoBuffer) == LoopEnd(queued - {b.index}, 0, b)
  {
    assert Ends(attempts[0]);
  }

  /**
   * `errno` is not reset before `_snap` reads it: a frame dequeued with the
   * error flag set, while `errno` still holds an old `EAGAIN`, empties the
   * slot set, ends the loop with `econd` 0 and is the buffer then copied.
   */
  lemma SnapAcceptsFlaggedFrameOnStaleErrno()
    ensures var bad := DriverBuffer(0, BUF_FLAG_ERROR, 100, 0);
      var attempts := [Attempt(Ready, Some(bad), EAGAIN), Attempt(Interrupted, None, 0)];
      EndsFrom(attempts, 0)
      && RetryLoop({0}, 0, attempts, 0, NoBuffer) == LoopEnd({}, 0, bad)
  {
    var bad := DriverBuffer(0, BUF_FLAG_ERROR, 100, 0);
    var attempts := [Attempt(Ready, Some(bad), EAGAIN), Attempt(Interrupted, None, 0)];
    assert Ends(attempts[1]);
    assert Flagged(bad);
    assert !Ends(attempts[0]);
    assert {0} - {bad.index} == {};
  }

  /** `realloc` is called exactly when the caller's buffer is shorter than the frame. */
  lemma CopyReallocsOnlyWhenShort(econd: int, caller: Option<CallerBuffer>, reallocOk: bool, b: DriverBuffer, frame: seq<byte>)
    requires b.bytesused <= |frame| && CallerOk(caller)
    ensures CopyOut(econd, caller, reallocOk, b, frame).reallocated <==> caller.Some? && caller.value.len < b.bytesused
  {
  }

  /**
   * Whenever there is a buffer to copy into, exactly `bytesused` bytes of
   * the frame land at its start, `*len` becomes `bytesused`, and the result
   * is the loop's.
   */
  lemma CopyCopiesBytesused(econd: int, caller: Option<CallerBuffer>, reallocOk: bool, b: DriverBuffer, frame: seq<byte>)
    requires b.bytesused <= |frame| && CallerOk(caller)
    requires caller.Some?
    requires caller.value.len < b.bytesused ==> reallocOk
    requires caller.value.len >= b.bytesused ==> caller.value.data.Some?
    ensures var c := CopyOut(econd, caller, reallocOk, b, frame);
      c.rc == econd && c.out.Some? && c.out.value.len == b.bytesused && c.out.value.data.Some?
      && |c.out.value.data.value| >= b.bytesused
      && c.out.value.data.value[..b.bytesused] == frame[..b.bytesused]
  {
  }

  /** A NULL buffer that needs no growing yields `*len` 0 and -1. */
  lemma CopyIntoNull(econd: int, len: nat, reallocOk: bool, b: DriverBuffer, frame: seq<byte>)
    requires b.bytesused <= |frame| && len >= b.bytesused
    ensures CopyOut(econd, Some(CallerBuffer(len, None)), reallocOk, b, frame)
         == Copy(-1, Some(CallerBuffer(0, None)), false)
  {
  }

  /** A failed `realloc` returns -1 and leaves the caller's buffer as it was. */
  lemma CopyReallocFails(econd: int, caller: Option<CallerBuffer>, b: DriverBuffer, frame: seq<byte>)
    requires b.bytesused <= |frame| && CallerOk(caller)
    requires caller.Some? && caller.value.len < b.bytesused
    ensures CopyOut(econd, caller, false, b, frame) == Copy(-1, caller, true)
  {
  }

  // ---- video_open ----------------------------------------------------------

  /** A handle is returned exactly when every check passes. */
  lemma OpenedIff(stat: Option<bool>, fd: int, caps: Option<bv32>, callocOk: bool)
    ensures OpenCheck(stat, fd, caps, callocOk) == Opened
      <==> stat == Some(true) && fd != -1 && caps.Some?
           && caps.value & CAP_VIDEO_CAPTURE != 0 && caps.value & CAP_STREAMING != 0
           && callocOk
  {
  }

  /** The descriptor is closed exactly when it was opened and a later check failed. */
  lemma ClosesIff(stat: Option<bool>, fd: int, caps: Option<bv32>, callocOk: bool)
    ensures ClosesFd(OpenCheck(stat, fd, caps, callocOk))
      <==> stat == Some(true) && fd != -1 && OpenCheck(stat, fd, caps, callocOk) != Opened
  {
  }

  /**
   * The stored name is the path followed by NULs when the path fits in
   * MAXLEN_DEVPATH characters; a longer path is cut to 64 characters and
   * left without a terminating NUL.
   */
  lemma NameTerminatedIff(devpath: seq<char>)
    requires forall i :: 0 <= i < |devpath| ==> devpath[i] != '\0'
    ensures var name := StrNCpy(devpath, MAXLEN_DEVPATH + 1);
      ('\0' in name <==> |devpath| <= MAXLEN_DEVPATH)
      && (|devpath| <= MAXLEN_DEVPATH ==> name[..|devpath|] == devpath)
  {
    var name := StrNCpy(devpath, MAXLEN_DEVPATH + 1);
    if |devpath| <= MAXLEN_DEVPATH {
      assert name[MAXLEN_DEVPATH] == '\0';
    } else {
      forall i | 0 <= i < |name|
        ensures name[i] != '\0'
      {
      }
    }
  }
}

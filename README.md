# libvideo in Dafny

A model of the core of libvideo. libvideo is a small C library that
captures frames from a V4L2 device (the Video4Linux2 API) and converts them
to grey or RGB. The model covers:

- the capture handle of `video.c`: opening a device, choosing a format,
  mapping the driver's buffers, queueing and dequeueing them, taking a
  snapshot, and destroying the handle;
- the four-character pixel-format codes of `fourcc.c`;
- the YUYV (YUV 4:2:2) converters of `yuyv.c` and `yuyv2rgb.c`: the
  integer 8-bit approximation of ITU-R BT.601 YCbCr to RGB;
- the BA81 (8-bit Bayer BGGR) demosaic of `bayer.c`;
- the Netpbm writers and loader of `pgm.c` (raw "P5" PGM, pgm(5)) and
  `pnm.c` (plain "P3" PPM, ppm(5)).

Kernel calls are parameters of the methods that make them. This covers
`ioctl`, `mmap`, `munmap`, `select`, `stat`, `open`, `calloc` and
`realloc`. Each parameter is an "oracle": it says what the call answers,
or whether it succeeds. The handle is a class, `Video.VideoState`, with the
fields of `struct video_state`. Its 32-bit masks of queued slots and
requested slots are sets of slot numbers. C `stdio` streams come from
module `Stdio`:

- an output stream keeps the bytes written to it, up to a fixed capacity;
- an input stream reads the bytes of a file from a position.

Each operation that loops or updates state is a method. Its `ensures`
ties it to a specification function, and lemmas prove what that function
promises. Examples:

- `Pgm.WriteThenLoad`: a PGM written by `pgm_write` with stride 1 loads
  back by `pgm_load` as the same width, height and samples.
- `Decimal.AtoiFormat`: `atoi` reads back every `%d`.
- `Pnm.LineReadsBack`: every PPM line splits on spaces into one decimal
  field per sample.
- `VideoProperties.SubmittedIff`: `_enqueue` submits a pending slot exactly
  when the driver accepts it and every lower pending slot.
- `VideoProperties.MapRolledBack`: a failed `_map_frames` unmaps, in
  reverse order, exactly what it had mapped.

Modules:

| module | file | models |
|---|---|---|
| Common | common.dfy | byte and word types, `Option` |
| Decimal | decimal.dfy | `%d`, `atoi`, `isspace`/`isdigit`, NUL-terminated strings |
| Stdio | stdio.dfy | `fprintf`, `fwrite`, `fputc`, `fgetc`, `fread` on bounded streams |
| Fourcc | fourcc.dfy | fourcc.c |
| Yuyv | yuyv.dfy | yuyv.c |
| Yuyv2Rgb | yuyv2rgb.dfy | yuyv2rgb.c |
| Bayer | bayer.dfy | bayer.c |
| Pgm | pgm.dfy | pgm.c |
| Pnm | pnm.dfy | pnm.c |
| Video | video.dfy | video.c, vidfmt.h, vidfrm.h |
| VideoProperties | video_properties.dfy | lemmas about the capture handle |

## Model

| member | source | states |
|---|---|---|
| Fourcc.FourccString | fourcc.c:5-13 | the result is the four bytes of the code, lowest first, then a NUL; packing them again gives the code back |
| Fourcc.FourccInteger | fourcc.c:15-24 | an ASCII first character gives the four characters packed lowest first; a first byte >= 0x80 is sign-extended and fills bytes 1-3 with 0xff |
| Fourcc.SignExtend | fourcc.c:16 | a signed `char` widened to 32 bits keeps its low byte and fills bits 8-31 exactly when it is >= 0x80 |
| Fourcc.IntegerReadsFour | fourcc.c:15-24 | only the first four characters are read |
| Fourcc.IntegerOfString | fourcc.c:5-24 | integer to text to integer is the identity when the low byte is below 0x80 |
| Fourcc.StringOfInteger | fourcc.c:5-24 | text to integer to text keeps the four characters when the first is ASCII |
| Fourcc.StringOfIntegerHighFirst | fourcc.c:15-24 | with a first byte >= 0x80 the round trip gives that byte followed by three 0xff |
| Yuyv.Clampi | yuyv.c:56-64 | identity on 0..255, 0 below, 255 above |
| Yuyv.Shr8 | yuyv.c:76-78 | the arithmetic `>> 8` is the floor of division by 256 |
| Yuyv.Yuv2Rgb | yuyv.c:67-80 | the integer branch of `YUV2RGB`: C = y-16, D = u-128, E = v-128, each channel a clamped `(... + 128) >> 8`; no contract of its own, its properties are the lemmas below |
| Yuyv.NeutralChromaIsGrey | yuyv.c:73-78 | U = V = 128 gives equal red, green and blue |
| Yuyv.StudioRangeEnds | yuyv.c:73-78 | with neutral chroma, luma <= 16 is black and luma >= 235 is white |
| Yuyv.ClampiMonotone | yuyv.c:56-64 | the clamp is monotone |
| Yuyv.LumaMonotone | yuyv.c:73-78 | raising luma never lowers any channel |
| Yuyv.Pixels | yuyv.c:33-34 | the loops visit w*h pixels when both are positive, none otherwise |
| Yuyv.PairSharesChroma | yuyv.c:104-110 | both pixels of a pair share U (high byte of the even word) and V (high byte of the odd word) |
| Yuyv.GroupBytes | yuyv.c:101-108 | on a little-endian host the group bytes Y0 U Y1 V are the low and high bytes of two words |
| Yuyv.GroupYuv | yuyv.c:104-110 | the two calls of one group convert exactly the two pixels' (Y, U, V) |
| Yuyv.YuyvToGray | yuyv.c:23-42 | each of the first w*h output bytes is the low byte of the same input word; the rest is untouched |
| Yuyv.StoreRgb | yuyv.c:67-80 | one call writes the three channels of one pixel and nothing else |
| Yuyv.ConvertGroup | yuyv.c:104-111 | one 4-byte group converts two pixels, extending the converted prefix |
| Yuyv.ConvertLine | yuyv.c:101-111 | one row of w pixels is converted and nothing outside it changes |
| Yuyv.ConvertRows | yuyv.c:85-113 | every pixel of the image is converted by the given conversion; bytes past 3*w*h are untouched |
| Yuyv.YuyvToRgb | yuyv.c:83-114 | every pixel p of the image becomes `YUV2RGB` of its luma and its pair's chroma at bytes 3p..3p+2 |
| Yuyv2Rgb.Clampi | yuyv2rgb.c:15-23 | identity on 0..255, 0 below, 255 above |
| Yuyv2Rgb.Yuv2Rgb | yuyv2rgb.c:26-39 | this file's own `YUV2RGB`, with the same coefficients; no contract of its own, `SameConversion` relates it to yuyv.c's |
| Yuyv2Rgb.SameConversion | yuyv2rgb.c:26-39 | this file's conversion equals yuyv.c's on every input |
| Yuyv2Rgb.SameImage | yuyv2rgb.c:41-72 | an image converted by one converter is the image converted by the other |
| Yuyv2Rgb.YuyvToRgb | yuyv2rgb.c:41-72 | every pixel is converted, by this file's conversion and therefore by yuyv.c's |
| Bayer.Avg2 | bayer.c:36-37 | the average of two samples lies between them |
| Bayer.Avg4 | bayer.c:32-33 | the average of four samples lies between their least and greatest |
| Bayer.Demosaic | bayer.c:30-57 | the colour rebuilt for a cell by its row and column parity; every channel is a byte, and the channel the sensor site records is the sample itself |
| Bayer.Grey | bayer.c:41 | the grey of a colour lies between its least and its greatest channel |
| Bayer.InteriorBounds | bayer.c:22-24 | an interior cell has a full 3x3 neighbourhood inside the image |
| Bayer.GreyWithinWindow | bayer.c:30-59 | the grey value of a cell lies within the range of its 3x3 neighbourhood |
| Bayer.FlatFieldIsGrey | bayer.c:30-59 | a flat neighbourhood of value x demosaics to (x, x, x) and grey x |
| Bayer.Interpolate | bayer.c:30-59 | one cell's output is the grey of the demosaiced colour for its row and column parity |
| Bayer.RowCells | bayer.c:22-62 | the cells of an inner row other than its first and last are exactly the interior cells of that row |
| Bayer.InterpolateRow | bayer.c:24-62 | one row writes the grey of every inner cell and nothing else |
| Bayer.Ba81ToRgb | bayer.c:14-66 | returns 0; every interior cell holds its grey value; the border cells are untouched |
| Decimal.Digits | pgm.c:20 | the digits of a natural number, one digit only below 10 |
| Decimal.Format | pgm.c:20 | `%d` is a non-empty word, with a minus sign exactly for negative numbers |
| Decimal.DigitRun | pgm.c:92 | the length of the leading run of digits |
| Decimal.SpaceRun | pgm.c:92 | the length of the leading run of white space |
| Decimal.Atoi | pgm.c:92-96 | `atoi`: only a leading minus sign gives a negative value, and whitespace alone reads as 0; `AtoiFormat` is its round trip with `%d` |
| Decimal.CString | pgm.c:87 | the text up to the first NUL, which contains no NUL |
| Decimal.CStringOfWord | pgm.c:87 | a NUL-free text is its own C string |
| Decimal.CStringAtNul | pgm.c:76 | a NUL at n ends the C string at or before n |
| Decimal.ValueOfDigits | pgm.c:92 | the digits of n have value n |
| Decimal.DigitRunOfDigits | pgm.c:92 | a run of digits is read whole |
| Decimal.AtoiFormat | pgm.c:92-96 | `atoi` reads back every integer `%d` writes |
| Decimal.DigitsLength | pgm.c:20 | a number below 10^k has at most k digits |
| Decimal.IntFormatLength | pgm.c:20 | a non-negative `int` takes at most 10 characters |
| Stdio.Fill | pgm.c:27 | a write keeps what was there and appends the longest prefix that fits |
| Stdio.FillAppend | pnm.c:27 | two writes in a row fill as one write of both |
| Stdio.FullAbsorbs | pnm.c:27 | once the stream is full, later bytes are dropped |
| Stdio.FillFull | pgm.c:31 | a write to a full stream changes nothing |
| Stdio.OutStream.Print | pgm.c:20 | `fprintf` returns the byte count when all bytes fit, else -1 |
| Stdio.OutStream.Write | pgm.c:27 | `fwrite` returns the number of bytes that fit |
| Stdio.OutStream.Putc | pgm.c:31 | `fputc` returns the byte or EOF when the stream is full |
| Stdio.InStream.Getc | pgm.c:57 | `fgetc` returns the next byte and advances, or EOF at the end |
| Stdio.InStream.Read | pgm.c:100 | `fread` returns the whole items available, up to n, and consumes their bytes |
| Pgm.Header | pgm.c:19-22 | the header is at least 11 bytes |
| Pgm.CommentLine | pgm.c:20 | the comment line `# %s`, printed only for a non-NULL comment; `CommentStopsAtNul` states where `%s` stops |
| Pgm.CommentStopsAtNul | pgm.c:20 | the comment is printed up to its first NUL and no further |
| Pgm.Payload | pgm.c:26-34 | the payload holds N samples, sample k taken from `buf[k*stride]` |
| Pgm.StrideOnePayload | pgm.c:26-27 | with stride 1 the payload is the first N bytes |
| Pgm.PayloadPrefix | pgm.c:28-34 | the first k samples written are the payload's first k |
| Pgm.PutSamples | pgm.c:26-35 | writes the payload; returns 0 when it all fits, -1 otherwise |
| Pgm.PgmWrite | pgm.c:16-36 | exits with status -1 when the header does not fit; otherwise writes header then payload (stride 0 repeats the first byte) and returns 0 exactly when all of it fits |
| Pgm.SkipComment | pgm.c:66-68 | a comment is skipped up to and including the first end of line |
| Pgm.Scan | pgm.c:53-78 | `nextToken` as a function of the bytes left: whitespace and comments skipped or ending the token, EOF stored as 0xFF, None when a comment runs into EOF; `ScanShape` states the token's shape |
| Pgm.ScanShape | pgm.c:53-78 | a token holds no white space, no `#` and at most buflen-1 bytes |
| Pgm.EatComment | pgm.c:66-68 | the stream is left just after the end of line |
| Pgm.NextToken | pgm.c:53-78 | the token read, its length and the NUL after it, and the position left, are those of the scan; bytes after the NUL are unchanged |
| Pgm.Samples | pgm.c:97-110 | `calloc` then `fread` of w*h items: a load holds exactly w*h items, taken from the head of the bytes left; a NULL store happens only when `calloc` refused and bytes are left |
| Pgm.Fields | pgm.c:91-110 | width, height and maxval tokens through `atoi`, then the samples; never an unopened file or a bad signature |
| Pgm.Load | pgm.c:81-114 | the outcome of `pgm_load`: unopened exactly when `fopen` fails, a bad signature only for a first token other than "P5" |
| Pgm.ReadFields | pgm.c:91-110 | reading width, height, maxval and samples, with the given `calloc` outcome, gives the outcome of `Fields` |
| Pgm.PgmLoad | pgm.c:81-114 | the outcome is that of `Load` for the given `calloc` outcome: -1 when unopened or short, maxval on success, a NULL store when `calloc` refused |
| Pgm.ScanWord | pgm.c:56-60 | a word followed by white space is read whole and the separator consumed |
| Pgm.ScanWordFrom | pgm.c:56-74 | a partly read word is completed to the whole word |
| Pgm.SkipCommentLine | pgm.c:66-68 | a comment line without an inner end of line is skipped exactly |
| Pgm.ScanComment | pgm.c:64-72 | a comment line before a token is transparent |
| Pgm.FieldOfFormat | pgm.c:92 | a `%d` field reads back as its value |
| Pgm.LoadOfTokens | pgm.c:86-97 | four tokens, the first "P5", determine the loaded width, height and maxval |
| Pgm.TailToken | pgm.c:91-96 | the maxval token follows the optional comment |
| Pgm.HeaderLayout | pgm.c:19-22 | the header is the signature, width, height, comment and maxval in that order |
| Pgm.HeaderTokens | pgm.c:86-96 | a written header scans into the tokens P5, w, h and 255 |
| Pgm.HeaderLoads | pgm.c:81-110 | loading a written header reads width, height, maxval 255, then the payload, whatever `calloc` answers |
| Pgm.WriteThenLoad | pgm.c:16-114 | a file written with stride 1, whose comment as printed holds no line end, loads as maxval 255, the same width and height, and the first w*h bytes of the buffer when `calloc` grants the memory; when it refuses a non-empty image, `fread` stores through NULL |
| Pnm.RowInside | pnm.c:21-24 | row r of a w*h image lies within the buffer |
| Pnm.Header | pnm.c:13-16 | the `P3` header with or without the comment line; `HeaderLikePgm` relates it to the PGM header |
| Pnm.Text | pnm.c:13-31 | the whole text `pnm_write` means to print: header, then h lines of w pixels; `LineReadsBack` states what each line holds |
| Pnm.PutPixel | pnm.c:24-28 | one pixel writes its separator and three decimal samples |
| Pnm.PutRow | pnm.c:22-30 | one row writes its pixels separated by spaces, then a newline |
| Pnm.PutRows | pnm.c:21-31 | h rows write the body text row after row |
| Pnm.PnmWrite | pnm.c:9-33 | writes header and body text; returns -1 exactly when the header does not fit, else 0 |
| Pnm.LastSpace | pnm.c:27 | the last space of a text, if any |
| Pnm.Split | pnm.c:27 | splitting on spaces gives at least one field |
| Pnm.SplitSnoc | pnm.c:27-28 | a space and a space-free word add one field |
| Pnm.SplitWord | pnm.c:27 | a space-free word is one field |
| Pnm.SampleText | pnm.c:24-27 | a sample prints as 1 to 3 digits that read back as the sample |
| Pnm.JoinedSnoc | pnm.c:28 | joining one more word adds a space and the word |
| Pnm.SplitJoined | pnm.c:27-28 | splitting joined space-free words gives the words back |
| Pnm.Words | pnm.c:23-29 | a row's words are three per pixel |
| Pnm.WordsAt | pnm.c:24-27 | word i of a row is the decimal of sample i |
| Pnm.RowJoined | pnm.c:22-29 | a row is its words joined with single spaces |
| Pnm.DigitsSpaceFree | pnm.c:27 | a decimal sample contains no space |
| Pnm.RowSplits | pnm.c:22-29 | splitting a row gives one field per sample, each the sample's decimal |
| Pnm.RowIsOneLine | pnm.c:22-29 | a row contains no newline |
| Pnm.LineReadsBack | pnm.c:21-31 | every line ends in a newline, holds no other, and its fields read back as the row's samples |
| Pnm.HeaderLikePgm | pnm.c:13-16 | the PPM header is the PGM header with "P3" for "P5" |
| Video.Lowest | video.c:598 | `__builtin_ctz` of a non-empty mask: its lowest member |
| Video.FirstFailure | video.c:260-306 | the first slot whose `VIDIOC_QUERYBUF` or `mmap` fails, every earlier one having succeeded |
| Video.MapEffect | video.c:241-314 | the frame table, result and `munmap` calls of `_map_frames`; `MapSucceeded` and `MapRolledBack` state its two outcomes |
| Video.Unmaps | video.c:219-233 | slots are unmapped from the highest down to 0 |
| Video.FirstMatch | video.c:348-406 | the first preference the driver accepts unchanged, or -1; no earlier one is accepted |
| Video.CStrLen | video.c:408-415 | the position of the first NUL |
| Video.StrCpy | video.c:408-415 | `strcpy` copies up to and including the first NUL and leaves the rest |
| Video.StrNCpy | video.c:933 | `strncpy` copies n characters, padding with NULs after the source ends |
| Video.Adopt | video.c:408-415 | the format `_config` stores once the driver accepts: its width, height and the `strcpy` of the code's text; `AdoptedIsRequested` states when it is the preference |
| Video.RetryLoop | video.c:773-786 | the retry loop only removes slots, ends with 0 or -1, and its buffer comes from one of its `VIDIOC_DQBUF` calls |
| Video.EnqueueAccept | video.c:597-608 | an accepted lowest slot moves from pending to submitted |
| Video.EnqueueRefuse | video.c:597-608 | a refused lowest slot ends the loop with what was submitted so far |
| Video.EnqueueExhausted | video.c:597-608 | with no slot left every pending slot was submitted |
| Video.AppendIncreasing | video.c:597-608 | slots are issued in increasing order |
| Video.UnmapFrames | video.c:219-233 | unmaps slots n-1 down to 0; returns -1 exactly when some `munmap` failed, else 0 |
| Video.DequeueSpec | video.c:631-722 | `_dequeue` as a function of the slot set, the timeouts and the driver's answers; the `Dequeue...` lemmas below state its gates |
| Video.CopyOut | video.c:796-818 | the copy step of `_snap`; the `Copy...` lemmas below state its cases |
| Video.OpenCheck | video.c:870-946 | which of `video_open`'s checks stops it, in order; `OpenedIff` and `ClosesIff` state its outcomes |
| Video.VideoState.constructor | video.c:922-924 | a fresh handle is zeroed: no slot queued, no frame mapped, not streaming |
| Video.VideoState.SetUnqueued | video.c:322-325 | clears exactly the given slot's bit |
| Video.VideoState.Start | video.c:459-470 | returns 0 and streams on success; -1 and nothing changed on failure |
| Video.VideoState.Stop | video.c:482-494 | on success nothing is queued and streaming stops; on failure -1 and nothing changes |
| Video.VideoState.Enqueue1 | video.c:531-571 | always returns 0; issues `VIDIOC_QBUF` only for an unqueued slot, and marks it queued when the driver accepts |
| Video.VideoState.Enqueue | video.c:574-616 | always returns 0; issues the pending slots in increasing order up to the first refusal; queued grows by exactly the submitted slots |
| Video.VideoState.Dequeue | video.c:631-722 | result, waiting, `VIDIOC_DQBUF`, returned buffer and new slot set are those of the dequeue specification; memory is given only on success |
| Video.VideoState.MapFrames | video.c:241-314 | count and frame table are those of the mapping specification: granted slots mapped, or all rolled back and -1 |
| Video.VideoState.Config | video.c:338-436 | adopts the first accepted preference; returns its index, -1 when none, -2 when no frame is mapped |
| Video.VideoState.Snap | video.c:733-821 | queues slot 0, starts, runs the retry loop, stops, then copies the frame; result and state are those of the retry and copy specifications |
| Video.VideoState.DequeueFrame | video.c:773-786 | the slots left, the result and the buffer are those of the retry loop |
| Video.VideoState.CopyFrame | video.c:796-818 | the copy-out specification: `realloc` when short, `bytesused` bytes copied, -1 on failure |
| Video.VideoState.Destroy | video.c:824-834 | unmaps the mapped frames from the highest down, none when the count is <= 0, and closes the descriptor |
| Video.VideoOpen | video.c:870-946 | returns a handle exactly when every check passes, closing the descriptor exactly when it was opened and a later check failed; the handle holds the truncated path and the descriptor, and its format, frame table, queued set and counts are zero as `calloc` left them |
| VideoProperties.SubmittedIff | video.c:597-608 | a slot is submitted exactly when it is pending and no pending slot at or below it is refused |
| VideoProperties.RefusedIsFirstFailure | video.c:597-608 | the refused slot is the lowest refused pending slot, above every submitted one |
| VideoProperties.SubmittedAllWhenAccepted | video.c:597-608 | with no refusal all pending slots are submitted |
| VideoProperties.DequeueFailsFast | video.c:644-645 | nothing queued and a timeout other than NONE: -1 with no wait and no `VIDIOC_DQBUF` |
| VideoProperties.DequeueWaitsIff | video.c:647-700 | `select` is called exactly when the resolved timeout is positive after the fail-fast check; NONE never waits |
| VideoProperties.DequeueDefaultResolves | video.c:647-648 | the DEFAULT timeout behaves as the handle's own |
| VideoProperties.DequeueClearsReturnedSlot | video.c:702-709 | only a successful `VIDIOC_DQBUF` changes the set, removing exactly the returned slot |
| VideoProperties.DequeueRejectsFlagged | video.c:714-717 | a buffer with the error flag gives a nonzero result |
| VideoProperties.DequeueSucceedsIff | video.c:631-722 | 0 exactly when every gate passes and the buffer is clean |
| VideoProperties.MapSucceeded | video.c:241-307 | success returns the granted count with every slot's address and length; nothing unmapped |
| VideoProperties.MapRolledBack | video.c:309-313 | a failure at slot k unmaps slots k-1 down to 0 at their fresh addresses and returns -1 |
| VideoProperties.AdoptedIsRequested | video.c:408-415 | an accepted preference with an ASCII, NUL-free code is adopted unchanged |
| VideoProperties.SnapCleanFirstFrame | video.c:773-786 | a clean first frame ends the loop with 0 and that frame, its slot unqueued |
| VideoProperties.SnapAcceptsFlaggedFrameOnStaleErrno | video.c:773-786 | a flagged frame with an old EAGAIN in errno ends the loop with 0 and is copied |
| VideoProperties.CopyReallocsOnlyWhenShort | video.c:796-818 | `realloc` exactly when the caller's buffer is shorter than `bytesused` |
| VideoProperties.CopyCopiesBytesused | video.c:796-818 | with a buffer, `bytesused` bytes land at its start and `*len` becomes `bytesused` |
| VideoProperties.CopyIntoNull | video.c:796-818 | a NULL buffer that needs no growing gives `*len` 0 and -1 |
| VideoProperties.CopyReallocFails | video.c:796-818 | a failed `realloc` returns -1 and leaves the caller's buffer |
| VideoProperties.OpenedIff | video.c:884-934 | a handle exactly when stat, open, `VIDIOC_QUERYCAP`, capabilities and calloc all pass |
| VideoProperties.ClosesIff | video.c:942-945 | the descriptor is closed exactly when it was opened and a later check failed |
| VideoProperties.NameTerminatedIff | video.c:933 | the stored name is NUL-terminated exactly when the path has at most MAXLEN_DEVPATH characters |

## Left out

- Kernel and C library calls are oracle parameters. The model covers `ioctl`, `mmap`, `munmap`, `select`, `stat`, `open`, `close`, `calloc` (in `video_open` and in `pgm_load`), `realloc` and `memcpy`. Their effects on the device are not modelled.
- The `EINTR` retry inside `iioctl` (video.c:210-216) is not modelled. An ioctl oracle answers after any retries.
- `_dequeue` ends the process with `err` when `select` fails other than by `EINTR` (video.c:693). The wait oracle has no such case, so the model does not capture that exit.
- `_snap` ends the process when `_enqueue1` fails (video.c:759-760). That exit is unreachable because `_enqueue1` always returns 0, and the model proves so.
- `video_open` checks `VIDEO_MAX_FRAME` (video.c:877-878). That check is a compile-time constant and always passes.
- `_dump` and the debugging output are not modelled.
- The `struct video_capture` method table is not modelled. Each method is called on the handle directly.
- The `HAVE_SINGLETON_DEVICE` build is not modelled (video.c:837-863 and 919-920). That build hands out one static handle whose dequeue timeout starts at 2 seconds. The model follows the `calloc` build, where every field starts at zero.
- Buffer timestamps are opaque integers.
- `errno` is a value carried by each retry attempt.
- The 32-bit masks are sets of slot numbers 0..31. The `1 << id` shifts are not modelled bit by bit.
- The floating-point `YUV2RGB` branch (`HAVE_FLOAT_CONVERSION`), the `#if 0` blocks, and bayer.c's floating-point division are not modelled. Bayer grey is the integer mean, which equals the truncated float quotient for these non-negative sums.
- `pgm_save` and `pnm_save` (fopen, then write, then fclose) are not modelled.
- png.c, buffer.c, firstdev.c, convyuyv.c and yuyv2pnm.c are not part of this model.
- `stdio` is modelled as a stream of bounded capacity, with no buffering, flushing or `errno`.
- `int` overflow of `w*h` and of the `%d` widths is not modelled. Widths and heights are unbounded integers.
- In `pgm_load`, samples of a file with maxval above 255 are returned as raw bytes, two per sample. Their byte order is not interpreted.
- `pgm_load` does not `fclose` on its early returns. After a short read the freed image is still handed back through `*img`. Neither is modelled.
- Yuyv.YuyvToRgb: requires an even width when the image is non-empty. With an odd width the group loop reads and writes one pixel past the row.
- Yuyv2Rgb.YuyvToRgb: requires an even width when the image is non-empty, for the same reason.
- Yuyv.YuyvToRgb: the model assumes a little-endian host, where the low byte of each word comes first in memory.
- Bayer.Ba81ToRgb: requires the input and output buffers to hold w*h bytes whenever the image has inner cells.
- Pgm.PgmWrite: requires a non-negative width and height and a buffer holding w*h samples at the given stride. A negative count is not modelled.
- Pgm.PgmWrite: a negative stride is not modelled when there are samples to write, because the samples are a sequence indexed from 0. The C code steps backwards through memory before `buf`. A stride of 0, and any stride when w*h is 0, are modelled.
- Pgm.PutSamples: the same limit on negative strides applies.
- Pgm.NextToken: requires that the scan ends. `nextToken` never returns when the file ends inside a comment, and such a file is excluded.
- Pgm.PgmLoad: requires that no token read hangs, for the same reason. Such a file is the `Hangs` outcome of the specification.
- Pgm.ReadFields: requires that no token read hangs, for the same reason.
- Pgm.Samples: a negative w*h is taken as a request `calloc` always refuses, since it becomes more than half the address space once unsigned. A `fread` through the NULL it returns is the `NullWrite` outcome. What that undefined store does is not modelled.
- Pnm.PnmWrite: ignores the result of each per-sample write, as the source does. Its result only reflects the header write.
- Video.VideoState.Snap: requires that streaming is off, as the library's callers ensure. It also requires that the sequence of attempts ends the retry loop. An endless series of `EINTR` or `EAGAIN` is outside the model.
- Video.VideoState.DequeueFrame: requires that the attempts end the loop, for the same reason.
- Video.VideoState.MapFrames: `_map_frames` asserts that `VIDIOC_QUERYBUF` reports a buffer neither QUEUED nor DONE (video.c:288-289). A failed assert aborts the process. The buffer oracle carries no flags, so this abort is not modelled.
- Video.VideoState.MapFrames: the number of buffers `VIDIOC_REQBUFS` grants is assumed to be at most `VIDEO_MAX_FRAME`. The source loops to `req.count` without checking it against the 32-entry frame table. A larger grant would overrun that table, and that overrun is not modelled.
- Video.VideoState.Config: the same two limits apply, through MapFrames.
- Video.VideoState.Enqueue: the `issued` output lists the `VIDIOC_QBUF` calls made. The driver's own queue is not modelled.
- Video.VideoState.CopyFrame: `realloc` is modelled as a fresh buffer of the new size. Bytes beyond `bytesused` are not tracked.

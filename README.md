# giferator: frame selection and timestamps, modelled in Dafny

giferator turns a time range of a video into an animated GIF. This model
covers the part of `giferator.py` that decides which frames go into the GIF:

- `calculateStart` parses a `(h:)m:s` start time into a start frame index and
  an offset in seconds (`timestamp.dfy`, module `Timestamp`);
- `getFramesFromVideo` checks the requested range against the video and reads
  `int(duration * fps)` frames, skipping failed reads and optionally
  reversing the result (`extraction.dfy`, module `Extraction`);
- `reduceFrames` keeps one frame in every `cull` (`reduce.dfy`, module `Reduce`);
- `autoscaleTextSize` searches for the caption's font scale (`fontscale.dfy`,
  module `FontScale`).

`builtins.dfy` (module `Builtins`) gives the Python behaviour this code relies
on: `str.split(":")` with its inverse `":".join`, `int()` on strings with its
inverse `str()`, truncation by `int()` of a float, the `[::-1]` slice, and `*`
and `+` on ints and strings, including the `TypeError` raised by `0 + "..."`.
Raised exceptions are values of `Result`.

The OpenCV capture is abstracted to the values the extraction takes from it:
the frame rate, the frame count and the outcome of each successive `read()`
after the seek (`Extraction.Video`). Frames are an opaque type parameter.
Text measurement in `autoscaleTextSize` is a function parameter `measure`
that maps a whole-number scale to a pixel width.

Things this model shows about the code:

- The read/abort decision comes down to one condition:
  `start + framesRequired <= frameCount` (`Extraction.PlanFor`). The earlier
  `start > videoLength` test only selects the diagnostic. A range that ends
  exactly on the last frame is read.
- `reduceFrames` returns `ceil(len / cull)` frames. Its docstring says
  `int(len(frames) / 3)`, but the code does not do that: 10 frames culled by
  3 give 4 frames (`Reduce.TenFramesCulledByThree`). A negative `cull` works
  like its absolute value. `cull == 0` raises `ZeroDivisionError`, unless the
  list is empty.
- Every `h:m:s` start time raises, and then `getFramesFromVideo` returns no
  frames (see Findings).

## Model

| member | source | states |
|---|---|---|
| `Builtins.Trunc` | giferator.py:183 | `int(x)` of a float truncates toward zero: the result lies within 1 of `x`, on `x`'s side of zero. |
| `Builtins.Split` | giferator.py:173 | `s.split(":")` has one more piece than `s` has colons, and no piece contains a colon. Joining the pieces with `":"` gives back `s`. |
| `Builtins.SplitJoin` | giferator.py:173 | Splitting a `":"`-join of colon-free pieces gives back exactly those pieces. |
| `Builtins.ParseShowInt` | giferator.py:179 | `int(str(n)) == n` for every integer `n`. |
| `Builtins.ReverseAt` | giferator.py:58 | `s[::-1]` has the same length as `s`, and element `k` is `s[len-1-k]`. |
| `Builtins.ReverseReverse` | giferator.py:58 | Reversing twice restores the original order. |
| `Timestamp.CalculateStart` | giferator.py:163-183 | With no colon or more than two, the result is the format exception. With exactly two colons, it is a `TypeError`. A successful result has exactly one colon, and its frame is `int(seconds * fps)`. |
| `Timestamp.MinutesSeconds` | giferator.py:177-179 | For `a:b` with colon-free parts, the result is `(int((int(a)*60+int(b))*fps), int(a)*60+int(b))`, or a `ValueError` when either part is not an integer. |
| `Timestamp.MinutesSecondsOf` | giferator.py:177-183 | `str(m) + ":" + str(s)` starts at `m*60+s` seconds, for every pair of integers. |
| `Timestamp.OneThirtyAtThirtyFps` | giferator.py:177-183 | `"1:30"` at 30 fps gives `(2700, 90)`. |
| `Timestamp.TenMinutesAtThirtyFps` | giferator.py:177-183 | `"10:00"` at 30 fps gives `(18000, 600)`. |
| `Timestamp.ThreeComponentsRaise` | giferator.py:180-181 | Every three-component string raises `TypeError`. |
| `Timestamp.CalculateStartCorrected` | giferator.py:173-183 | The corrected parser raises only the format exception or `ValueError`, never `TypeError`. Its successes have one or two colons, and the frame is `int(seconds * fps)`. |
| `Timestamp.HoursMinutesSecondsCorrected` | giferator.py:180-181 | For `h:m:s` with colon-free parts, zero-padded ones included, the corrected parser gives `(int((int(h)*3600+int(m)*60+int(s))*fps), int(h)*3600+int(m)*60+int(s))`, or a `ValueError` when some part is not an integer. |
| `Timestamp.ZeroOneThirtyCorrected` | giferator.py:180-181 | The corrected parser reads `"0:01:30"` at 30 fps as `(2700, 90)`. |
| `Timestamp.ZeroOneThirtyRaises` | giferator.py:180-181 | The parser as written raises `TypeError` on `"0:01:30"`. |
| `Timestamp.CorrectedHoursMinutesSeconds` | giferator.py:180-181 | The corrected parser reads `str(h):str(m):str(s)` as `h*3600+m*60+s` seconds, for every three integers. |
| `Timestamp.CorrectedAgreesElsewhere` | giferator.py:173-183 | The correction changes nothing for strings that do not have exactly two colons. |
| `Reduce.ReduceFrames` | giferator.py:74-87 | For `cull != 0` the result is the stride `Strided(frames, abs(cull))`. For `cull == 0` it is `[]` on an empty list and `ZeroDivisionError` otherwise. |
| `Reduce.StridedLength` | giferator.py:77-87 | The stride keeps `ceil(len / cull)` frames. |
| `Reduce.StridedAt` | giferator.py:82-87 | The k-th kept frame is `frames[k * cull]`. |
| `Reduce.StridedOne` | giferator.py:82-87 | With `cull = 1` the frames come back unchanged. |
| `Reduce.TenFramesCulledByThree` | giferator.py:77-87 | Ten frames culled by 3 keep frames 0, 3, 6 and 9, which is 4 frames and not `int(10 / 3)`. |
| `Extraction.FramesRequired` | giferator.py:24 | For a non-negative duration, `framesRequired` is the whole part of `duration * fps`. |
| `Extraction.PlanFor` | giferator.py:16-42 | Reading happens exactly when the duration is positive, the start parses, and `start + framesRequired <= frameCount`. Each abort reason is paired with its condition. A read plan starts at the parsed frame and reads `framesRequired` frames. |
| `Extraction.Extract` | giferator.py:16-60 | `duration <= 0` gives `([], 0)`. Every other abort gives `([], fps)`. A read never returns more frames than it attempted. |
| `Extraction.GetFramesFromVideo` | giferator.py:16-60 | The method's result equals `Extract`. It calls `read()` exactly `framesRequired` times on a read plan, and never on an abort. |
| `Extraction.KeptLength` | giferator.py:46-53 | The read loop keeps at most one frame per read. It keeps one for every read exactly when no read failed. |
| `Extraction.KeptAppend` | giferator.py:46-53 | Frames are kept in read order: later reads append later frames. |
| `Extraction.KeptMembers` | giferator.py:46-53 | A frame is kept exactly when some read grabbed it. |
| `Extraction.ExtractedFramesAreGrabbed` | giferator.py:46-53 | On a read plan, the returned frames are exactly those grabbed by the first `framesRequired` reads. The count equals `framesRequired` exactly when none of those reads failed. |
| `Extraction.ExtractReverse` | giferator.py:57-58 | With `reverse`, the frames are the exact reverse of the frames without it, and the fps is the same. |
| `Extraction.StartAfterEndExample` | giferator.py:32-36 | A `"10:00"` start on a 5-minute, 30 fps video aborts with "start after end" and returns no frames. |
| `FontScale.AutoscaleTextSize` | giferator.py:89-114 | Returns `s - 1`, where `s` is the least scale `>= 1` at which the text is at least `imageWidth - 200` wide. The result is 0 exactly when the text is already too wide at scale 1. When the width grows with the scale, no larger scale fits either, so the result is the largest scale that fits. |
| `FontScale.AutoscaleTextSizeClamped` | giferator.py:113-114 | The corrected scale is at least 1, and it is 1 when scale 1 is already too wide. Otherwise every scale from 1 up to the result fits and the next one does not. When the width grows with the scale, it is the largest whole scale that fits. |

## Findings

| source | as written | input that shows it | evidently intended | confidence | as-written member | corrected member |
|---|---|---|---|---|---|---|
| giferator.py:180-181 | In the `h:m:s` branch the parts stay strings. `h * 60 * 60` repeats a string, and `seconds += ...` then adds a string to the int `0`, which raises `TypeError`. `getFramesFromVideo` catches it and returns no frames. | `"0:01:30"` | `seconds = int(h)*3600 + int(m)*60 + int(s)` | high; not executed | `Timestamp.ZeroOneThirtyRaises` | `Timestamp.HoursMinutesSecondsCorrected` |
| giferator.py:108-114 | When the text is already too wide at scale 1, the loop does not run and `1.0 - 1.` returns scale 0 (the FIXME on line 113). | any `measure` with `measure(1) >= imageWidth - 200` | a usable scale of at least 1 | high; not executed | `FontScale.AutoscaleTextSize` | `FontScale.AutoscaleTextSizeClamped` |

`Extraction` keeps the parser as written (`Timestamp.CalculateStart`), because
it models the program as it runs. `Timestamp.CorrectedAgreesElsewhere` shows
that switching to `CalculateStartCorrected` would change only three-component
strings.

## Left out

- OpenCV capture, seeking and release (`cv.VideoCapture`, `src.set`, `src.release`) are I/O. The capture becomes `Extraction.Video`. Its outcomes are taken to be the reads after the seek, so the seek position itself is not modelled. The early returns at lines 36 and 42 do not release the source; that is also not modelled.
- `saveGif`, `downscaleImages` and `writeCenteredText` are foreign calls (colour conversion, resizing, text drawing and file writing) and are not modelled.
- The diagnostic `print` lines (17, 33-35, 39-41, 53) only produce display output and are not modelled.
- The module-level argparse script and the gifsicle `optimize` call (lines 185-220) are command-line plumbing and not modelled.
- Builtins.Trunc: `fps` is an exact non-negative real. The rounding of the floating-point products `seconds * fps` and `duration * fps` is not modelled.
- Builtins.ParseInt: only an optional `-` followed by ASCII digits is accepted. Python's `int()` also accepts surrounding whitespace, a leading `+`, underscores and non-ASCII digits; the model treats such strings as `ValueError`.
- Extraction.GetFramesFromVideo: `duration` is an integer, as the script's `--duration` option is. The frame count is a natural number; a capture that reports a negative count is not modelled.
- FontScale.AutoscaleTextSize: scales are whole numbers, where the source uses floats 1.0, 2.0, and so on. Text, font and thickness are folded into `measure`. The method requires some scale at which the text reaches the width budget, because without one the source loop never ends. An empty caption, if OpenCV measures it as 0 pixels wide at every scale, is such an input on any frame wider than 200 pixels; OpenCV's measurement is not part of this model. The result is the largest fitting scale only for a measurement that grows with the scale; for any other measurement it is one less than the first scale that does not fit.

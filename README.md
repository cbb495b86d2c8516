# ffmpeg_progress in Dafny

A model of the core of `ffmpeg_progress`. The package runs ffmpeg on a file and
reports progress by reading the statistics log that ffmpeg writes
(`-vstats_file`). The model covers five parts:

- **The frame estimate** (`Estimator`). `start` picks a stream from the ffprobe
  record, evaluates its `avg_frame_rate`, reads the duration, and computes
  `total_frames = int(duration * fps)`. Each failed check maps to one error kind.
- **The reverse-scan tailer** (`Tailer`). `display` finds the last line of the
  log by seeking two bytes before the end of the file, then walking backwards
  one byte at a time until it reads a newline.
- **The polling loop of `display`** (`ProgressLoop`). The loop sleeps, checks
  that the process is alive and not a zombie, and tails the log. It reads the
  frame counter, which is whitespace field 5 of the stripped line. It then
  calls `on_message(percent, fr_cnt, total_frames, elapsed)`.
- **`start` as a whole** (`Orchestrator`). The validation chain, `mkstemp`,
  the launch, the PID check, the initial sleep, `display`, `os.close` and
  `on_done`. The result is how `start` ended plus the ordered trace of effects
  it made.
- **`default_on_message`** (`Utils`). A 22-cell progress bar filled in place,
  and the status line that is written.

Around these sit the error taxonomy of `exceptions.py` (`Exceptions`) and
byte-level models of the Python built-ins used on a log line (`TextOps`):
`str.strip()`, `re.split(r'\s+', ...)`, `int()` and `'{:d}'`.

The outside world is modelled as inputs:

- The ffprobe record is a `Probe` value. The rate is a numerator and
  denominator, and the duration is a real number.
- The descriptor and path returned by `mkstemp`, and the PID returned by
  `ffmpeg_func`, are fields of `Env`.
- So is the `on_message` that `display` calls (`Callback`): one the caller
  passed, taken to return normally, or `default_on_message`, whose
  IndexError for a count of at least 1.075 * total_frames ends the loop.
- Each iteration of the polling loop sees one `Poll`: whether `os.kill(pid, 0)`
  finds the process, whether psutil reports it a zombie, the bytes the log
  holds, and the seconds elapsed since the loop began.

Sleeps, callbacks, the close and `on_done` become `Effect` values in a trace.

Arithmetic is exact. The estimate uses rationals and truncates toward zero as
`int()` does. The percentage is the exact rational `100 * fr_cnt / total_frames`.
The bar's `round()` is round-half-to-even on the exact quotient.

In these places the code does less than a reading of its design would
suggest, and the model follows the code:

- A log with no newline before its last line makes the backward `os.lseek`
  go below offset 0. That raises an `OSError`, which `display` does not catch
  (`Tailer.TailSpec`). It is not treated as "no complete line yet".
- A probe record without `format` raises `NoDuration`, not `ProbeFailed`.
  Only the stream lookup on lines 183-186 is wrapped for `ProbeFailed`.
- A line with fewer than six fields counts as 0 frames. A sixth field that is
  not an integer raises `ValueError`, which escapes `display`.
- `os.close` runs only when `display` returns normally; there is no `finally`.
  After `InvalidPID`, or an exception out of the loop, the descriptor stays open
  (`Orchestrator.InvalidPidLeavesFdOpen`, `Orchestrator.CloseIffCompleted`).
- The line is stripped at both ends, not only at the end.
- A negative stream index is accepted when Python's list indexing accepts it.
- A negative `initial_wait_time` or `wait_time` makes `sleep()` raise ValueError
  after the launch, and the descriptor stays open
  (`Orchestrator.NegativeSleepRaises`).

## Model

| member | source | states |
|---|---|---|
| Exceptions.Message | ffmpeg_progress/exceptions.py:10-43 | each error kind carries its fixed, non-empty message ending in a full stop |
| Exceptions.MessagesDistinct | ffmpeg_progress/exceptions.py:10-43 | two kinds have the same message exactly when they are the same kind |
| TextOps.LeadingSpaces | ffmpeg_progress/lib.py:105 | the count is the maximal run of whitespace bytes at the start |
| TextOps.TrailingSpaces | ffmpeg_progress/lib.py:105 | the count is the maximal run of whitespace bytes at the end |
| TextOps.Strip | ffmpeg_progress/lib.py:105 | the stripped line is empty, or starts and ends with a byte that is not whitespace |
| TextOps.StripOfTrimmed | ffmpeg_progress/lib.py:105 | strip() leaves a line with no whitespace at either end unchanged |
| TextOps.StripRemovesOnlyEdges | ffmpeg_progress/lib.py:105 | the stripped line is a contiguous slice of the input, and only whitespace was removed on each side |
| TextOps.StripAddsNothing | ffmpeg_progress/lib.py:105 | a byte absent from the input is absent from the stripped line |
| TextOps.FirstSpace | ffmpeg_progress/lib.py:107 | the index of the first whitespace byte, with no whitespace before it |
| TextOps.Split | ffmpeg_progress/lib.py:107 | re.split(r'\s+') yields at least one field, and no field contains whitespace; what a whole run of whitespace does is stated by TextOps.SplitRun and TextOps.SplitJoinRuns |
| TextOps.SplitNoSpace | ffmpeg_progress/lib.py:107 | a word without whitespace splits into itself alone |
| TextOps.SplitRun | ffmpeg_progress/lib.py:107 | a word, a run of one or more whitespace bytes and a rest that starts with a non-space split into the word followed by the fields of the rest: the whole run is one separator |
| TextOps.SplitKeepsNonSpace | ffmpeg_progress/lib.py:107 | the fields, concatenated, are the input with every whitespace byte removed: nothing but separators is lost |
| TextOps.SplitStrippedFieldsNonEmpty | ffmpeg_progress/lib.py:105-107 | splitting a stripped, non-empty line yields no empty field |
| TextOps.JoinTrimmed | ffmpeg_progress/lib.py:105-107 | proper fields joined by any runs of whitespace start and end with a byte that is not whitespace |
| TextOps.JoinAvoids | ffmpeg_progress/lib.py:105-107 | a byte in no field and in no separator does not occur in the joined line |
| TextOps.SplitJoinRuns | ffmpeg_progress/lib.py:107 | splitting non-empty, space-free fields joined by any non-empty runs of whitespace gives back exactly those fields |
| TextOps.JoinSingleSpaced | ffmpeg_progress/lib.py:107 | one space between fields is a valid separator run, and joining with it is the plain single-spaced join |
| TextOps.SplitJoin | ffmpeg_progress/lib.py:107 | splitting a single-spaced line of non-empty, space-free fields gives back exactly those fields |
| TextOps.StripPadded | ffmpeg_progress/lib.py:105 | strip() of a trimmed, non-empty text padded with whitespace on both sides gives back the text |
| TextOps.DecimalDigits | ffmpeg_progress/utils.py:29 | '{:d}' of a count is decimal digits, with a leading zero only for 0 |
| TextOps.DecimalDigitsParse | ffmpeg_progress/utils.py:29 | the digits '{:d}' writes are well formed for int() and denote the count |
| TextOps.DecimalRoundTrip | ffmpeg_progress/lib.py:107 | int() reads back any integer that '{:d}' wrote, negative ones included |
| TextOps.ParseInt | ffmpeg_progress/lib.py:107 | a value int() accepts ends in a digit, and a negative one starts with '-' |
| TextOps.Decimal | ffmpeg_progress/utils.py:29 | '{:d}' is non-empty, starts with '-' exactly for a negative number, and is digits after the first character |
| Estimator.Trunc | ffmpeg_progress/lib.py:197 | int() truncates toward zero, bracketing the value from below when positive and from above when negative |
| Estimator.TruncPositiveIff | ffmpeg_progress/lib.py:197-199 | the truncated count is at least one exactly when the product is at least 1.0 |
| Estimator.SelectStream | ffmpeg_progress/lib.py:183-186 | a stream is found exactly when the streams key is present and -len <= index < len, and a negative index counts from the end |
| Estimator.Fps | ffmpeg_progress/lib.py:188 | the evaluated rate times the denominator is the numerator |
| Estimator.FpsZeroIff | ffmpeg_progress/lib.py:188-192 | the evaluated rate is zero exactly when its numerator is zero |
| Estimator.DurationOf | ffmpeg_progress/lib.py:194 | a duration is found exactly when both the format key and its duration key are present |
| Estimator.Estimate | ffmpeg_progress/lib.py:183-199 | the checks fail in source order with ProbeFailed, InvalidFPS, UnexpectedZeroFPS and NoDuration; a success is at least one frame |
| Estimator.EstimateSucceedsIff | ffmpeg_progress/lib.py:183-199 | the estimate succeeds exactly when every check passes and duration * fps >= 1, and it is then the floor of the product; TotalFramesLTEZero is raised exactly when the checks pass and the product is below 1 |
| Estimator.EstimateExamples | tests/test_lib.py:45-96 | 25/1 fps over 10 s gives 250 frames; the rates 1/0 and 0/1, a missing duration, a zero duration and stream index 5 give their respective errors |
| Tailer.LastNewlineBefore | ffmpeg_progress/lib.py:101-102 | the backward walk stops at the last newline below the bound, or finds none when no byte below the bound is a newline |
| Tailer.TailSpec | ffmpeg_progress/lib.py:96-105 | a poll is skipped exactly when the log has fewer than two bytes or a newline just before its last byte; the only exception the scan lets out is OSError |
| Tailer.TailLastLine | ffmpeg_progress/lib.py:96-105 | the in-place scan yields the tail outcome (skip, the line, or OSError), reading one byte per step back plus the line itself |
| Tailer.TailLineHasNoNewline | ffmpeg_progress/lib.py:101-105 | the line the scan returns contains no newline |
| Tailer.TailOfCompleteLine | ffmpeg_progress/lib.py:96-105 | for a log ending in a complete newline-terminated line, the scan returns that line, whatever precedes it |
| Tailer.TailIgnoresOlderBytes | ffmpeg_progress/lib.py:96-105 | bytes before the previous newline never change the result, so the work per poll does not grow with the log |
| ProgressLoop.Continues | ffmpeg_progress/lib.py:88 | while the percentage is the one fr_cnt gives, the loop goes on exactly when fr_cnt < total_frames |
| ProgressLoop.FramesField | ffmpeg_progress/lib.py:105-109 | fewer than six fields count as 0 frames; with six or more, int() of field 5 succeeds or raises, and the only exception is ValueError |
| ProgressLoop.CallbackRaises | ffmpeg_progress/lib.py:86-87 | a caller's on_message returns normally; default_on_message raises, and only IndexError, exactly for a count of at least 1.075 * total_frames |
| ProgressLoop.StepSpec | ffmpeg_progress/lib.py:89-114 | one iteration: a dead process ends the loop quietly, and so does a zombie; a skip happens exactly when the tail is not ready; a report never lowers the frame count and sets elapsed to the poll's clock |
| ProgressLoop.StepPercent | ffmpeg_progress/lib.py:110-112 | the percentage changes only together with fr_cnt, and then becomes 100 * fr_cnt / total_frames |
| ProgressLoop.Loop | ffmpeg_progress/lib.py:88-114 | no more polls are consumed than there are; none is consumed exactly when the loop does not start, its sleep raises for a negative wait, or no poll remains; and no poll consumed means no effect |
| ProgressLoop.PollOnce | ffmpeg_progress/lib.py:90-114 | the body of one iteration (liveness checks, tail scan, int() of field 5, update of fr_cnt and percent) does exactly what the iteration specification says |
| ProgressLoop.DisplayLoop | ffmpeg_progress/lib.py:88-114 | the while loop, run over the polls and calling on_message, produces exactly the run the loop specification defines, the ValueError of a negative sleep and an exception from the callback included |
| ProgressLoop.CallOnMessage | ffmpeg_progress/lib.py:114 | calling on_message raises what the callback specification says: nothing for a given callback, the bar's IndexError for the default one |
| ProgressLoop.Display | ffmpeg_progress/lib.py:82-114 | display from fr_cnt = 0: every callback follows a sleep, and the sleeps are exactly one per poll consumed; counts reported never go down; each sample's percentage is 100 * fr_cnt / total_frames; a count that reaches total_frames is the last callback, and the loop then ends normally or with the default renderer's IndexError; a negative wait_time raises ValueError before any effect |
| ProgressLoop.LoopPaced | ffmpeg_progress/lib.py:88-114 | the trace holds only sleeps and callbacks, each callback right after a sleep, and exactly one sleep per poll consumed |
| ProgressLoop.LoopMonotone | ffmpeg_progress/lib.py:110-112 | the reported counts never decrease, and all of them lie between the starting and the final count |
| ProgressLoop.InitialPercent | ffmpeg_progress/lib.py:83-84 | the starting state already satisfies percent = 100 * fr_cnt / total_frames |
| ProgressLoop.LoopSamples | ffmpeg_progress/lib.py:110-114 | every callback receives the true total and percent = 100 * fr_cnt / total_frames, and the final state keeps that relation |
| ProgressLoop.PercentBelowHundredIff | ffmpeg_progress/lib.py:88 | the two halves of the loop condition agree: percent < 100 exactly when fr_cnt < total_frames |
| ProgressLoop.LoopExits | ffmpeg_progress/lib.py:88-95 | the loop finishes only once the condition fails; it stops for a dead or zombie process, an OSError or a ValueError from int() only at the last poll consumed, right after its sleep; a crash before any poll is the ValueError of a negative sleep, with no effect; every earlier poll saw a live process |
| ProgressLoop.LoopCrashKinds | ffmpeg_progress/lib.py:86-114 | the only exceptions that escape the loop are OSError from the scan, ValueError from int() or sleep(), and IndexError from default_on_message, which comes only without a caller's on_message and right after a callback reporting at least 1.075 * total_frames |
| ProgressLoop.LoopStopsAtCompletion | ffmpeg_progress/lib.py:88-114 | a callback reporting at least total_frames is the last effect, and the loop then ends normally or with the callback's IndexError |
| ProgressLoop.NegativeWaitRaises | ffmpeg_progress/lib.py:88-89 | with a negative wait_time, a loop that starts raises ValueError at its first sleep, before any poll and with no effect; one that does not start finishes |
| ProgressLoop.NegativeWaitFromStart | ffmpeg_progress/lib.py:83-89 | from fr_cnt = 0 with a positive total_frames the loop always starts, so a negative wait_time always raises ValueError |
| ProgressLoop.FramesFieldOfLine | ffmpeg_progress/lib.py:105-109 | whatever whitespace pads the line and however long the runs between its fields, fewer than six fields count as 0 frames; otherwise field 5 is read by int(), and a field that is not an integer raises ValueError |
| ProgressLoop.TailOfLogEndingWith | ffmpeg_progress/lib.py:96-105 | a log whose last complete line is the given padded, whitespace-separated fields tails to exactly that line |
| ProgressLoop.LogReadsAs | ffmpeg_progress/lib.py:96-109 | such a log yields the integer in field 5 as the frame count |
| ProgressLoop.StepOnLine | ffmpeg_progress/lib.py:106-112 | a read count above fr_cnt replaces it and recomputes the percentage; otherwise both are kept and only elapsed changes |
| ProgressLoop.FinishesOnLastLine | ffmpeg_progress/lib.py:88-114 | a line reporting total_frames gives one callback with 100.0, which neither callback raises on, and ends the loop |
| ProgressLoop.OvershootReported | ffmpeg_progress/lib.py:110-114 | a line reporting more than total_frames reaches the callback unclamped, with a percentage above 100; the loop then ends, with IndexError exactly when the default renderer gets at least 1.075 * total_frames |
| ProgressLoop.LastPoll | ffmpeg_progress/lib.py:88-114 | a poll that reports and reaches completion ends the loop after its callback, normally or with the callback's exception |
| ProgressLoop.LastPollEndsWith | ffmpeg_progress/lib.py:88-114 | the same last poll with its ending named: IndexError exactly when the default renderer gets at least 1.075 * total_frames, a normal end otherwise |
| ProgressLoop.OvershootStops | ffmpeg_progress/lib.py:88-114 | from any state, a poll that reports a count of at least total_frames is the last: one sleep, one callback with that count, then the loop ends |
| ProgressLoop.DisplaySuccessExample | tests/test_lib.py:142-160 | a poll with no line yet, then "0 0 0 0 0 100", gives two sleeps and one callback (100.0, 100, 100) |
| ProgressLoop.InvalidLineExample | tests/test_lib.py:190-210 | "invalid line" counts as 0 frames and still gives a callback, so there are two callbacks in all |
| ProgressLoop.ProcessGoneExample | tests/test_lib.py:163-172 | a process that is gone ends the loop after one sleep and no callback |
| ProgressLoop.ZombieExample | tests/test_lib.py:175-187 | a zombie process ends the loop after one sleep and no callback |
| ProgressLoop.MalformedLineExample | ffmpeg_progress/lib.py:106-107 | a sixth field that is not an integer makes the loop raise ValueError |
| ProgressLoop.NoNewlineExample | ffmpeg_progress/lib.py:101-102 | a log with no newline makes the backward seek raise OSError out of the loop |
| Orchestrator.Start | ffmpeg_progress/lib.py:181-207 | an estimate failure raises that error before mkstemp; otherwise the trace starts with mkstemp and the launch; a normal return carries the estimated total |
| Orchestrator.LoopTraceOnlyLoopEffects | ffmpeg_progress/lib.py:88-114 | inside display only sleeps and callbacks happen |
| Orchestrator.StartRaisesEstimateErrors | ffmpeg_progress/lib.py:183-199 | start raises a validation error exactly when the estimate fails with it |
| Orchestrator.InvalidPidLeavesFdOpen | ffmpeg_progress/lib.py:200-202 | InvalidPID is raised exactly when the PID is 0; then nothing follows the launch, and the descriptor is not closed |
| Orchestrator.CompletedOrder | ffmpeg_progress/lib.py:200-207 | on normal return the effects are mkstemp, the launch, the initial sleep, display with the estimate, the loop's own effects, the close, then on_done if given; launch, display and close each happen exactly once |
| Orchestrator.CloseIffCompleted | ffmpeg_progress/lib.py:204-207 | os.close happens exactly when start returns normally, and on_done exactly when it returns normally and was given |
| Orchestrator.StartFailures | ffmpeg_progress/lib.py:181-207 | what escapes start is one of the package's own errors, or, only after a successful estimate and launch, an OSError, a ValueError from int() or sleep(), or the IndexError of default_on_message when no on_message was given |
| Orchestrator.NegativeSleepRaises | ffmpeg_progress/lib.py:200-205 | a negative initial_wait_time raises ValueError right after the launch, and a negative wait_time raises it after the initial sleep and the start of display; os.close and on_done never run |
| Orchestrator.CompletedNeedsNonNegativeWaits | ffmpeg_progress/lib.py:203-207 | start returns normally only when neither wait time is negative |
| Orchestrator.StartOvershootRaises | ffmpeg_progress/lib.py:181-207 | without on_message, a log line reporting at least 1.075 * total_frames makes start raise IndexError, and neither os.close nor on_done runs |
| Orchestrator.StartSuccessExample | tests/test_lib.py:116-139 | 25 fps for 10 s, descriptor 123, PID 456: launch with "vstats_path", display(250, 123, 456), close(123), on_done once |
| Orchestrator.StartInvalidPidExample | tests/test_lib.py:98-113 | a launch returning 0 raises InvalidPID right after mkstemp and the launch |
| Utils.RoundHalfEven | ffmpeg_progress/utils.py:24 | round() of an exact quotient is within half a unit of it for either sign of the divisor, and ties go to the even neighbour |
| Utils.ToFillBounds | ffmpeg_progress/utils.py:24 | for 0 <= fr_cnt <= total_frames, to_fill lies between 1 and 20 |
| Utils.ToFill | ffmpeg_progress/utils.py:24 | to_fill is never 0, and at least 1 for a count that is not negative (the `or 1` guard) |
| Utils.BarSpec | ffmpeg_progress/utils.py:23-27 | IndexError exactly when to_fill is 22 or more, raised by the loop of lines 25-26 at cell 22 from 23 on and by line 27 at 22, or below -22 at line 27; otherwise the bar has 22 cells |
| Utils.RenderBar | ffmpeg_progress/utils.py:23-28 | the bar filled in place in a 22-cell array is the specified bar or its IndexError, and a zero total raises ZeroDivisionError |
| Utils.BarWithinBounds | ffmpeg_progress/utils.py:23-27 | for 0 <= fr_cnt <= total_frames both '\|' survive, cells 1..to_fill are filled and the rest are blank |
| Utils.HalfwayBar | tests/test_utils.py:12-23 | 500 of 1000 frames fill exactly ten of the twenty cells |
| Utils.OverfullBarRaises | ffmpeg_progress/utils.py:24-26 | 2000 of 1000 frames give to_fill 40, and the loop raises IndexError at cell 22 |
| Utils.OverfullBarLosesEdge | ffmpeg_progress/utils.py:24-27 | 1050 of 1000 frames give to_fill 21, which overwrites the closing '\|' |
| Utils.OvershootThreshold | ffmpeg_progress/utils.py:24-27 | for a count that is not negative, to_fill reaches past the bar exactly from fr_cnt >= 1.075 * total_frames |
| Utils.DefaultRaises | ffmpeg_progress/utils.py:23-27 | default_on_message raises ZeroDivisionError exactly for a zero total, otherwise only IndexError, and that exactly from 1.075 * total_frames on |
| Utils.CappedToFill | ffmpeg_progress/utils.py:24 | the capped to_fill lies between 1 and 20 for a count that is not negative, and never exceeds the uncapped one |
| Utils.CappedBarWellFormed | ffmpeg_progress/utils.py:23-27 | with to_fill capped at 20, every non-negative count gives a bar with both '\|' intact, and counts up to the total are unaffected by the cap |
| Utils.DecimalIsOneField | ffmpeg_progress/utils.py:29 | '{:d}' writes a non-empty ASCII word with no whitespace |
| Utils.FramesTextFields | ffmpeg_progress/utils.py:29 | "<fr_cnt> / <total_frames> frames;" is four single-spaced fields |
| Utils.FramesTextReadsBack | ffmpeg_progress/utils.py:29 | splitting the frames text gives four fields, and int() of the first and third gives back fr_cnt and total_frames |
| Utils.StatusLine | ffmpeg_progress/utils.py:29-30 | the line starts with a carriage return followed by the bar, so it overwrites the previous status line |
| Utils.DefaultOnMessage | ffmpeg_progress/utils.py:6-31 | the written status line carries the rendered bar, or the call raises ZeroDivisionError or IndexError before anything is written, exactly as the raise specification says |

## Left out

- ffprobe (lib.py:33-52), the subprocess and JSON parsing: the probe record is an input value.
- eval() of `avg_frame_rate`: a rate is a numerator and a denominator. Other strings eval() accepts, and the exceptions other strings raise, are not modelled.
- `float(duration)`: the duration is an exact real, not an IEEE double. Rounding in `duration * fps` and in the percentage is not modelled.
- `bytes.decode()` and Unicode whitespace: lines are bytes. Whitespace is the ASCII bytes for which `str.isspace()` holds. A UnicodeDecodeError from a line that is not UTF-8 is not modelled, nor are non-ASCII digits accepted by `int()`.
- `sleep`, `datetime.now`, `os.kill`, `psutil.Process(...).status()` and the file contents are per-poll inputs. The ValueError of `sleep()` for a negative length is modelled; the waiting itself is an effect. The race where the process exits between `os.kill` and psutil (NoSuchProcess) is not modelled.
- ProgressLoop.StepSpec: `os.kill(pid, 0)` is taken to find the process or raise ProcessLookupError. A PermissionError for a process owned by another user would escape `display` and `start` with the descriptor open; a poll only says whether the process is alive, so this is not modelled.
- TextOps.ParseInt: CPython's limit on the digits `int()` converts (4300 by default, configurable) is not modelled; a longer field is read as its value where CPython raises ValueError, which would escape the loop like any other ValueError from line 107.
- Orchestrator.Start: the temporary file name chosen by `mkstemp` (prefix, suffix) is an input.
- ProgressLoop.Display: the loop runs over a finite list of polls. When they run out while the loop would go on, the run ends as OutOfPolls (`Polling` in `Start`). Termination of the real loop depends on ffmpeg and is not claimed.
- ProgressLoop.Display: `on_message` is an effect in the trace. A callback the caller passes is taken to return normally; an exception it raises would end the loop like the IndexError of `default_on_message`, which is modelled.
- ProgressLoop.LoopCrashKinds: a caller's `on_message` is taken never to raise, so exceptions of its own are not among the kinds listed.
- Orchestrator.StartFailures: likewise, exceptions raised by a caller's `on_message` or `on_done` are not among the kinds listed.
- Utils.ToFill: `round()` is applied to the float `fr_cnt / total_frames * 20` (utils.py:24); the model rounds the exact rational `20 * fr_cnt / total_frames`. Where the float product lands on the other side of a .5 tie than the rational, the two can differ by one cell.
- Utils.DefaultOnMessage: the two float fields `{percent:5.1f}` and `{elapsed:.2f}` are given as already formatted text. The write to `sys.stdout` and the flush are the returned string.
- ffmpeg_progress/main.py, ffmpeg_progress.py and the command-line front end are not part of this model. The front end only catches FFMPEGProgressError (`Exceptions.CaughtByFrontEnd`).

## Findings

| source | as written | input that shows it | evidently intended | confidence | as-written member | corrected member |
|---|---|---|---|---|---|---|
| ffmpeg_progress/utils.py:24-27 | to_fill = round(20 * fr_cnt / total_frames) or 1 indexes the 22-cell bar with no upper bound. display passes fr_cnt unclamped (lib.py:110-114), and total_frames is only an estimate. From fr_cnt >= 1.075 * total_frames, default_on_message raises IndexError inside display, and start never closes the log | fr_cnt = 2000, total_frames = 1000: to_fill is 40 and the loop of lines 25-26 raises IndexError at `bar_[22]`, before line 27. fr_cnt = 1050: to_fill is 21 and the closing '\|' becomes a fill cell | the fill stays within the twenty cells between the two '\|' | not executed | Utils.OverfullBarRaises | Utils.CappedBarWellFormed |

# Animation timing for Aseprite sprite sheets

This project models how `tools/generate-animation.py` turns an Aseprite
sprite-sheet export into the animation tables of a Game Boy Advance demo.
It covers two parts. `calculate_timing` turns one frame tag into a playback
schedule. The assembly step in `main` builds the animation model that the
templates render.

- **AnimationTiming** (`timing.dfy`) holds the frames, tags and schedules.
  - `PlaybackSequence` plays the tag's inclusive range `frames[from..to]`.
    For direction `"pingpong"` it then adds the slice `frames[to-1:from:-1]`.
    That slice follows Python's rules for a step of -1, so a negative start
    counts from the end of the list.
  - `CalculateTiming` is the imperative walk. It keeps a running tick total
    and appends one `(tid, lastFrame)` entry per played frame. Its loop is
    proved against the functions `TotalTicks` and `Timings`.
  - A tick is `duration / 16`, rounded down.
  - A tile index is `x * h / 64` for a source width `w > 0`.
  - A zero source width makes the source raise a division error. The model
    returns `Failure(ZeroDivision)` instead.
- **AnimationModel** (`model.dfy`) builds the model. Its name is the image
  file name up to the first `.`. Every frame tag is paired with its schedule,
  in declaration order. If any tag fails, the whole build fails.
- **AnimationExamples** (`animation_examples.dfy`) works out schedules for small
  sheets.

## Behaviour worth noting

- On a sheet of two or more frames, a `"pingpong"` tag with
  `from == to == 0` does not give a single entry.
  The backward slice starts at index -1, which is the last frame, so it plays
  every frame of the sheet (`PingPongWrapAround`, `FirstFramePingPongWraps`).
  On a one-frame sheet that slice is empty and the tag plays its one frame.
- With a 64x64 source size, the frame at x = 8 has tile index 8
  (`TwoFramesForward`). The code divides the pixel offset x by the frame
  width and multiplies by the frame's tile count w * h / 64, so x = 8 gives
  8 / 64 * 64 = 8. Counting x in 8-pixel tiles would give 1 instead.
- Only `"pingpong"` is a special direction. Every other direction string,
  `"reverse"` included, plays forward. No direction error exists.
- The code has no range error and no geometry error of its own. An
  out-of-range tag is excluded by the requires `InRange`. A zero width gives
  the division failure.

## Model

| member | source | states |
|---|---|---|
| AnimationTiming.ClampDescending | tools/generate-animation.py:53 | the start and stop of the step -1 slice land in -1 .. len-1; an index inside the sequence stays, a negative one down to -len counts from the end, one below -len becomes -1 and one at or past len becomes len-1 |
| AnimationTiming.Descending | tools/generate-animation.py:53 | the backward walk from hi down to lo+1 has max(hi-lo, 0) elements, and element k is s[hi-k] |
| AnimationTiming.SliceBackward | tools/generate-animation.py:53 | the slice s[start:stop:-1] for in-range bounds walks from start down to stop+1 (start-stop elements, element k is s[start-k]); a negative start counts from the end, so start -1 walks from the last element |
| AnimationTiming.PlaybackSequence | tools/generate-animation.py:50-53 | the playback opens with frames[from] and shows frames[to] at position to-from; it has exactly to-from+1 entries unless the direction is "pingpong"; the full shape is stated by ForwardPlayback, PingPongPlayback, PingPongWrapAround and PlaybackIndex |
| AnimationTiming.ForwardPlayback | tools/generate-animation.py:50-52 | any direction other than "pingpong" plays exactly frames[from..to], which is to-from+1 frames |
| AnimationTiming.PingPongPlayback | tools/generate-animation.py:50-53 | for "pingpong" with to >= 1, the range is followed by its interior reversed: 2*(to-from) frames, or the single frame when from == to |
| AnimationTiming.PingPongWrapAround | tools/generate-animation.py:53 | for "pingpong" with to == 0, frame 0 is followed by every other sheet frame from the last down to 1, one entry per sheet frame |
| AnimationTiming.PlaybackShowsSheetIndex | tools/generate-animation.py:50-53 | playback position k shows the sheet frame whose index the same tag plays at position k over the indices 0..n-1 |
| AnimationTiming.PlaybackLength | tools/generate-animation.py:50-53 | the playback has to-from+1 entries for any direction but "pingpong"; for "pingpong" it has 2*(to-from) entries, 1 when from == to, and one per sheet frame when to == 0 |
| AnimationTiming.PlaybackIndex | tools/generate-animation.py:50-53 | position k of the playback shows sheet frame from+k on the way forward, then 2*to-from-k on the way back, or n-k when to == 0 (the slice wraps to the last frame); that index always lies inside the sheet |
| AnimationTiming.PlaybackForwardIndex | tools/generate-animation.py:50 | positions 0..to-from show frames from..to, for every direction |
| AnimationTiming.PlaybackReturnIndex | tools/generate-animation.py:52-53 | under "pingpong" with to >= 1, position k past the range shows sheet frame 2*to-from-k |
| AnimationTiming.PlaybackReturnAt | tools/generate-animation.py:52-53 | the same position of the way back, stated by its sheet index |
| AnimationTiming.PlaybackWrapIndex | tools/generate-animation.py:52-53 | under "pingpong" with to == 0, position k >= 1 shows sheet frame n-k |
| AnimationTiming.EndpointsOnce | tools/generate-animation.py:50-53 | for every direction, sheet index from is played only at position 0 and sheet index to only at position to-from |
| AnimationTiming.InteriorTwice | tools/generate-animation.py:52-53 | under "pingpong", each interior index i is played exactly twice: at position i-from going forward and at 2*to-from-i coming back |
| AnimationTiming.Ticks | tools/generate-animation.py:60 | a frame lasts r ticks where 16*r <= duration < 16*(r+1): the duration divided by 16, rounded down |
| AnimationTiming.TileIndex | tools/generate-animation.py:59 | the tile index r satisfies 64*r <= x*h < 64*(r+1): x*h/64 rounded down, defined for a non-zero source width (its relation to the source formula is TileIndexMatchesFormula) |
| AnimationTiming.TotalTicks | tools/generate-animation.py:58-61 | the running total after a sequence of frames never exceeds their total display time in 16 ms ticks, and falls short of it by less than one tick per frame |
| AnimationTiming.Timings | tools/generate-animation.py:58-65 | one (tid, lastFrame) entry per played frame, in order; the contents of each entry are stated by TimingsAt and BoundaryStep |
| AnimationTiming.TimingOf | tools/generate-animation.py:48-70 | a successful schedule has one entry per played frame; the failure condition, the total and the boundaries are stated by ScheduleShape, LastBoundaryIsTotal and BoundariesBounded |
| AnimationTiming.TileIndexMatchesFormula | tools/generate-animation.py:59 | the integer tile index x*h/64 equals the source formula (x/w)*(w*h/64), taken in exact arithmetic and rounded down, for w > 0 |
| AnimationTiming.TotalTicksAppend | tools/generate-animation.py:60-61 | the tick total of two sequences played one after the other is the sum of their totals |
| AnimationTiming.PrefixTicksMonotone | tools/generate-animation.py:60-61 | a longer prefix of the playback never has fewer ticks |
| AnimationTiming.TimingsAt | tools/generate-animation.py:58-65 | one entry per played frame; entry i has the tile of frame i (its geometry only) and ends at the tick sum of frames 0..i |
| AnimationTiming.StepTimings | tools/generate-animation.py:58-65 | walking frame i adds its ticks to the running total and appends its (tid, lastFrame) entry |
| AnimationTiming.BoundaryStep | tools/generate-animation.py:60-64 | each boundary is the previous boundary (0 for the first) plus the frame's own duration/16 |
| AnimationTiming.ShortFrameAddsNothing | tools/generate-animation.py:60-65 | a frame shorter than 16 ms keeps its entry, and that entry ends where the previous one does (0 if first) |
| AnimationTiming.BoundariesMonotone | tools/generate-animation.py:61-64 | boundaries never decrease along the schedule |
| AnimationTiming.LastBoundaryIsTotal | tools/generate-animation.py:61-69 | the last entry's lastFrame equals the total tick count |
| AnimationTiming.BoundariesBounded | tools/generate-animation.py:61-69 | no boundary exceeds totalFrames |
| AnimationTiming.ScheduleShape | tools/generate-animation.py:48-70 | a tag's schedule fails exactly when a played frame has zero width; otherwise it has one entry per played frame (to-from+1 unless "pingpong"), and totalFrames is the last boundary |
| AnimationTiming.CalculateTiming | tools/generate-animation.py:48-70 | the loop that extends the slice and accumulates the entries returns exactly the schedule TimingOf: a total tick sum, or the division failure |
| AnimationModel.BaseName | tools/generate-animation.py:21 | the name is a prefix of the image file name with no '.', followed by '.' or the end of the name |
| AnimationModel.BaseNameOfFileName | tools/generate-animation.py:21 | the name of stem.ext, where stem has no '.', is stem |
| AnimationModel.PairTimings | tools/generate-animation.py:22 | pairing tags with their timings succeeds if and only if every timing succeeds; then entry i pairs tag i with timing i, one entry per tag |
| AnimationModel.TimeTags | tools/generate-animation.py:22 | succeeds if and only if every tag's timing succeeds; then it has one entry per tag, in order, each pairing the tag with its own timing |
| AnimationModel.BuildAnimation | tools/generate-animation.py:18-22 | the model is the base name of the image plus every frame tag, in declaration order, paired with its timing; any failing tag fails the whole build |
| AnimationExamples.TwoFramesForward | tools/generate-animation.py:48-70 | two 160 ms frames at x = 0 and 8 (64x64): tiles 0 and 8, boundaries 10 and 20, total 20 |
| AnimationExamples.TwoFramesPingPong | tools/generate-animation.py:50-53 | "pingpong" over two frames has no interior and gives the forward schedule |
| AnimationExamples.FirstFramePingPongWraps | tools/generate-animation.py:48-70 | "pingpong" on frame 0 of a two-frame sheet plays both frames, frame 0 then frame 1, and gives the schedule of the whole sheet played forward: tiles 0 and 8, boundaries 10 and 20, total 20 |
| AnimationExamples.ShortFrameKept | tools/generate-animation.py:58-65 | an 8 ms frame between two 160 ms frames keeps its entry, with boundary 10 like the one before it |

## Left out

- Argument parsing, reading the JSON file, the Jinja2 templates and writing the `.h` and `.c` files (tools/generate-animation.py:8-15, 25-44). These are I/O and a foreign templating library. The casing and enum naming done in the templates are not modelled either.
- The order of `data['frames']` (tools/generate-animation.py:17-18). The source assumes the JSON object's keys are already in sheet order. The model takes the frames as an ordered sequence.
- TileIndex: does not model the double-precision rounding of the tile formula (tools/generate-animation.py:59). The model uses exact integer division, and `TileIndexMatchesFormula` ties it to the source formula in exact arithmetic. The floating-point value `(x / w) * (w * h / 64)` is exact when x is a multiple of w. Otherwise it can land just below an integer even for small values: x = 1, w = 49, h = 64 gives `(1/49) * 49.0`, which is 0.9999999999999999 in IEEE double precision, so `int()` gives 0 where the model gives 1.
- The duration division (tools/generate-animation.py:60) is by a power of two, so the floating-point quotient is exact for every duration below 2^53, and its floor equals the model's integer division.
- Python's silent clamping of out-of-range slice bounds. Every tag must satisfy `from <= to < |frames|` (`InRange`). Tags with `from > to` or bounds past the end are not modelled.
- Negative coordinates, sizes and durations. All of them are naturals, as in the exporter's output.
- A tag's other JSON keys. `{**tag, 'timing': ...}` copies every key of the tag. The model's `Tag` carries only name, from, to and direction.
- How the generated C code looks up a tile from the schedule is not modelled. That code comes from the templates (tools/generate-animation.py:28, 38), not from `calculate_timing`.
- Idempotence is not a separate lemma. Every member here is a deterministic function of its inputs.

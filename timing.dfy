/** Timing of one animation tag of an Aseprite sprite sheet.

    A tag names an inclusive range of sheet frames and a playback direction.
    The playback sequence is that range, followed for "pingpong" by the
    interior of the range walked backwards. Walking the sequence gives every
    frame a tile index, taken from its place in the sheet, and a cumulative
    boundary in ticks (one tick is 16 ms, one display refresh at 60 Hz).
 */
module AnimationTiming {

  /** One frame of the sprite sheet: its position in the sheet image, the
      size of the untrimmed source sprite and its display time in ms. */
  datatype Frame = Frame(x: nat, y: nat, sourceWidth: nat, sourceHeight: nat, duration: nat)

  /** A frame tag: a name, the inclusive frame range and the direction. */
  datatype Tag = Tag(name: string, from: nat, to: nat, direction: string)

  /** One playback entry: the tile to show and the tick count at which it ends. */
  datatype FrameTiming = FrameTiming(tid: nat, lastFrame: nat)

  /** The playback schedule of one tag. */
  datatype Timing = Timing(totalFrames: nat, frameTimings: seq<FrameTiming>)

  /** A tile index divides by the source width; a zero width cannot be divided by. */
  datatype TimingError = ZeroDivision

  datatype Result<T> = Success(value: T) | Failure(error: TimingError)

  /** The only direction that changes the playback sequence. */
  const PingPong: string := "pingpong"

  /** Milliseconds per tick, roughly one refresh at 60 Hz. */
  const MsPerTick: nat := 16

  /** Pixels in one 8x8 tile. */
  const PixelsPerTile: nat := 64

  /** The tag's range lies inside a sheet of `count` frames. */
  predicate InRange(tag: Tag, count: nat)
  {
    tag.from <= tag.to < count
  }

  // ---------------------------------------------------------------------
  // Slicing with a negative step
  // ---------------------------------------------------------------------

  /** Where a start or stop index of a slice with step -1 lands in a
      sequence of length `len`: a negative index counts from the end, and
      an index still outside the sequence is pulled to just before it or
      to its last element. */
  function ClampDescending(i: int, len: nat): (r: int)
    ensures -1 <= r < len
    ensures 0 <= i < len ==> r == i
    ensures -(len as int) <= i < 0 ==> r == i + len
    ensures i < -(len as int) ==> r == -1
    ensures len <= i ==> r == len - 1
  {
    if i < 0 then (if i + len < 0 then -1 else i + len)
    else if i >= len then len - 1
    else i
  }

  /** The elements s[hi], s[hi - 1], ..., s[lo + 1]. */
  function Descending<T>(s: seq<T>, hi: int, lo: int): (r: seq<T>)
    requires -1 <= lo && -1 <= hi < |s|
    ensures |r| == if lo < hi then hi - lo else 0
    ensures forall k :: 0 <= k < |r| ==> r[k] == s[hi - k]
    decreases hi - lo
  {
    if hi <= lo then [] else [s[hi]] + Descending(s, hi - 1, lo)
  }

  /** The slice s[start:stop:-1]. */
  function SliceBackward<T>(s: seq<T>, start: int, stop: int): (r: seq<T>)
    ensures 0 <= start < |s| && 0 <= stop < |s| ==>
      |r| == (if stop < start then start - stop else 0) &&
      forall k :: 0 <= k < |r| ==> r[k] == s[start - k]
    ensures -(|s| as int) <= start < 0 && 0 <= stop < |s| ==>
      |r| == (if stop < |s| + start then |s| + start - stop else 0) &&
      forall k :: 0 <= k < |r| ==> r[k] == s[|s| + start - k]
  {
    Descending(s, ClampDescending(start, |s|), ClampDescending(stop, |s|))
  }

  /** Reference definition of a reversed sequence. */
  function Reversed<T>(s: seq<T>): (r: seq<T>)
    ensures |r| == |s|
    ensures forall k :: 0 <= k < |s| ==> r[k] == s[|s| - 1 - k]
  {
    if s == [] then [] else Reversed(s[1..]) + [s[0]]
  }

  // ---------------------------------------------------------------------
  // The playback sequence
  // ---------------------------------------------------------------------

  /** The frames of the tag in playback order. Generic in the element type,
      so that applying it to the sheet indices 0 .. n-1 tells which sheet
      frame each playback position shows. */
  function PlaybackSequence<T>(tag: Tag, frames: seq<T>): (r: seq<T>)
    requires InRange(tag, |frames|)
    ensures tag.to - tag.from < |r|
    ensures r[0] == frames[tag.from] && r[tag.to - tag.from] == frames[tag.to]
    ensures tag.direction != PingPong ==> |r| == tag.to - tag.from + 1
  {
    var forward := frames[tag.from..tag.to + 1];
    if tag.direction == PingPong then forward + SliceBackward(frames, tag.to - 1, tag.from)
    else forward
  }

  /** The sheet indices 0, 1, ..., n - 1. */
  function Indices(n: nat): (r: seq<nat>)
    ensures |r| == n
    ensures forall i :: 0 <= i < n ==> r[i] == i
  {
    seq(n, i => i)
  }

  /** Any direction other than "pingpong" plays the range forward once. */
  lemma ForwardPlayback<T>(tag: Tag, frames: seq<T>)
    requires InRange(tag, |frames|) && tag.direction != PingPong
    ensures PlaybackSequence(tag, frames) == frames[tag.from..tag.to + 1]
    ensures |PlaybackSequence(tag, frames)| == tag.to - tag.from + 1
  {
  }

  /** For "pingpong" with `to` at least 1, the backward part is the interior
      of the range, reversed: 2 * (to - from) entries, or 1 when from == to. */
  lemma PingPongPlayback<T>(tag: Tag, frames: seq<T>)
    requires InRange(tag, |frames|) && tag.direction == PingPong && 1 <= tag.to
    ensures tag.from < tag.to ==>
      PlaybackSequence(tag, frames) == frames[tag.from..tag.to + 1] + Reversed(frames[tag.from + 1..tag.to])
    ensures tag.from == tag.to ==> PlaybackSequence(tag, frames) == [frames[tag.from]]
    ensures |PlaybackSequence(tag, frames)| == if tag.from < tag.to then 2 * (tag.to - tag.from) else 1
  {
    var back := SliceBackward(frames, tag.to - 1, tag.from);
    if tag.from < tag.to {
      var interior := Reversed(frames[tag.from + 1..tag.to]);
      assert |back| == |interior|;
      forall k | 0 <= k < |back| ensures back[k] == interior[k] {
        assert back[k] == frames[tag.to - 1 - k];
      }
      assert back == interior;
    } else {
      assert back == [];
    }
  }

  /** For "pingpong" on a tag that covers only frame 0, the backward slice
      starts at index -1, which names the last sheet frame: the sequence is
      frame 0 followed by every other sheet frame, from the last down to 1. */
  lemma PingPongWrapAround<T>(tag: Tag, frames: seq<T>)
    requires InRange(tag, |frames|) && tag.direction == PingPong && tag.to == 0
    ensures PlaybackSequence(tag, frames) == [frames[0]] + Reversed(frames[1..])
    ensures |PlaybackSequence(tag, frames)| == |frames|
  {
    var back := SliceBackward(frames, -1, 0);
    var rev := Reversed(frames[1..]);
    assert |back| == |rev|;
    forall k | 0 <= k < |back| ensures back[k] == rev[k] {
      assert back[k] == frames[|frames| - 1 - k];
    }
    assert back == rev;
  }

  /** Playback position k shows the sheet frame whose index is at position k
      of the same tag played over the sheet indices. */
  lemma PlaybackShowsSheetIndex<T>(tag: Tag, frames: seq<T>)
    requires InRange(tag, |frames|)
    ensures var ids := PlaybackSequence(tag, Indices(|frames|));
      |PlaybackSequence(tag, frames)| == |ids| &&
      (forall k :: 0 <= k < |ids| ==> ids[k] < |frames| && PlaybackSequence(tag, frames)[k] == frames[ids[k]])
  {
    var n := |frames|;
    PlaybackLength(tag, frames);
    PlaybackLength(tag, Indices(n));
    forall k | 0 <= k < |PlaybackSequence(tag, Indices(n))|
      ensures PlaybackSequence(tag, Indices(n))[k] < n
      ensures PlaybackSequence(tag, frames)[k] == frames[PlaybackSequence(tag, Indices(n))[k]]
    {
      PlaybackIndex(tag, frames, k);
      PlaybackIndex(tag, Indices(n), k);
    }
  }

  /** The number of frames a tag plays on a sheet of n frames. */
  function PlayedCount(tag: Tag, n: nat): int
  {
    if tag.direction != PingPong then tag.to - tag.from + 1
    else if tag.to == 0 then n
    else if tag.from == tag.to then 1
    else 2 * (tag.to - tag.from)
  }

  /** The playback has PlayedCount entries. */
  lemma PlaybackLength<T>(tag: Tag, frames: seq<T>)
    requires InRange(tag, |frames|)
    ensures |PlaybackSequence(tag, frames)| == PlayedCount(tag, |frames|)
  {
    if tag.direction == PingPong {
      assert |PlaybackSequence(tag, frames)| ==
        tag.to - tag.from + 1 + |SliceBackward(frames, tag.to - 1, tag.from)|;
    }
  }

  /** The sheet index shown at playback position k of `tag` over n frames:
      the range going forward, then the way back, which for a tag ending at
      frame 0 starts again from the last sheet frame. */
  function PlayedIndex(tag: Tag, n: nat, k: nat): int
  {
    if k <= tag.to - tag.from then tag.from + k
    else if tag.to == 0 then n - k
    else 2 * tag.to - tag.from - k
  }

  /** Position k of the playback is the frame at PlayedIndex. */
  lemma PlaybackIndex<T>(tag: Tag, frames: seq<T>, k: nat)
    requires InRange(tag, |frames|) && k < |PlaybackSequence(tag, frames)|
    ensures 0 <= PlayedIndex(tag, |frames|, k) < |frames|
    ensures PlaybackSequence(tag, frames)[k] == frames[PlayedIndex(tag, |frames|, k)]
  {
    PlaybackLength(tag, frames);
    if k <= tag.to - tag.from {
      PlaybackForwardIndex(tag, frames, k);
    } else if tag.to == 0 {
      PlaybackWrapIndex(tag, frames, k);
    } else {
      PlaybackReturnIndex(tag, frames, k);
    }
  }

  /** A position of the range part of the playback. */
  lemma PlaybackForwardIndex<T>(tag: Tag, frames: seq<T>, k: nat)
    requires InRange(tag, |frames|) && k <= tag.to - tag.from
    ensures 0 <= PlayedIndex(tag, |frames|, k) < |frames|
    ensures PlaybackSequence(tag, frames)[k] == frames[PlayedIndex(tag, |frames|, k)]
  {
    assert PlayedIndex(tag, |frames|, k) == tag.from + k;
    var fw := frames[tag.from..tag.to + 1];
    var back := SliceBackward(frames, tag.to - 1, tag.from);
    if tag.direction == PingPong {
      assert PlaybackSequence(tag, frames) == fw + back;
      assert (fw + back)[k] == fw[k];
    }
  }

  /** A position of the way back of a "pingpong" playback with `to` >= 1. */
  lemma PlaybackReturnIndex<T>(tag: Tag, frames: seq<T>, k: nat)
    requires InRange(tag, |frames|) && tag.direction == PingPong
    requires 1 <= tag.to && tag.to - tag.from < k < 2 * (tag.to - tag.from)
    ensures 0 <= PlayedIndex(tag, |frames|, k) < |frames|
    ensures PlaybackSequence(tag, frames)[k] == frames[PlayedIndex(tag, |frames|, k)]
  {
    assert PlayedIndex(tag, |frames|, k) == 2 * tag.to - tag.from - k;
    PlaybackReturnAt(tag, frames, k);
  }

  /** The same position, named by its sheet index 2 * to - from - k. */
  lemma PlaybackReturnAt<T>(tag: Tag, frames: seq<T>, k: nat)
    requires InRange(tag, |frames|) && tag.direction == PingPong
    requires 1 <= tag.to && tag.to - tag.from < k < 2 * (tag.to - tag.from)
    ensures PlaybackSequence(tag, frames)[k] == frames[2 * tag.to - tag.from - k]
  {
    var fw := frames[tag.from..tag.to + 1];
    var back := SliceBackward(frames, tag.to - 1, tag.from);
    assert PlaybackSequence(tag, frames) == fw + back;
    assert (fw + back)[k] == back[k - |fw|];
  }

  /** A position of the way back of a "pingpong" playback on frame 0. */
  lemma PlaybackWrapIndex<T>(tag: Tag, frames: seq<T>, k: nat)
    requires InRange(tag, |frames|) && tag.direction == PingPong && tag.to == 0
    requires 0 < k < |frames|
    ensures 0 <= PlayedIndex(tag, |frames|, k) < |frames|
    ensures PlaybackSequence(tag, frames)[k] == frames[PlayedIndex(tag, |frames|, k)]
  {
    assert PlayedIndex(tag, |frames|, k) == |frames| - k;
    var fw := frames[0..1];
    var back := SliceBackward(frames, -1, 0);
    assert PlaybackSequence(tag, frames) == fw + back;
    assert (fw + back)[k] == back[k - 1];
  }

  /** Every direction shows the first and the last frame of the range exactly
      once: sheet index `from` only at position 0, sheet index `to` only at
      position to - from. */
  lemma EndpointsOnce(tag: Tag, n: nat)
    requires InRange(tag, n)
    ensures var ids := PlaybackSequence(tag, Indices(n));
      tag.to - tag.from < |ids| &&
      (forall k :: 0 <= k < |ids| ==> (ids[k] == tag.from <==> k == 0)) &&
      (forall k :: 0 <= k < |ids| ==> (ids[k] == tag.to <==> k == tag.to - tag.from))
  {
    var ids := PlaybackSequence(tag, Indices(n));
    var forward := tag.to + 1 - tag.from;
    forall k | forward <= k < |ids| ensures tag.from < ids[k] && tag.to != ids[k] {
      var hi := ClampDescending(tag.to - 1, n);
      assert ids[k] == Indices(n)[hi - (k - forward)];
    }
  }

  /** Under "pingpong" with from < to, each interior sheet index i is shown
      exactly twice: once going forward, once coming back. */
  lemma InteriorTwice(tag: Tag, n: nat, i: nat)
    requires InRange(tag, n) && tag.direction == PingPong && tag.from < i < tag.to
    ensures var ids := PlaybackSequence(tag, Indices(n));
      2 * tag.to - tag.from - i < |ids| &&
      forall k :: 0 <= k < |ids| ==> (ids[k] == i <==> k == i - tag.from || k == 2 * tag.to - tag.from - i)
  {
    var ids := PlaybackSequence(tag, Indices(n));
    var forward := tag.to + 1 - tag.from;
    forall k | forward <= k < |ids| ensures ids[k] == tag.to - 1 - (k - forward) {
      assert ids[k] == Indices(n)[tag.to - 1 - (k - forward)];
    }
  }

  // ---------------------------------------------------------------------
  // Ticks, tiles and the running sum
  // ---------------------------------------------------------------------

  /** A frame's duration in whole ticks, rounded down. */
  function Ticks(f: Frame): (r: nat)
    ensures r * MsPerTick <= f.duration < (r + 1) * MsPerTick
  {
    f.duration / MsPerTick
  }

  /** The tile a frame shows: its x offset in tiles of a sheet laid out as
      one row of 8x8 tiles. The source divides by the source width, so the
      width must not be zero. */
  function TileIndex(f: Frame): (r: nat)
    requires f.sourceWidth > 0
    ensures r * PixelsPerTile <= f.x * f.sourceHeight < (r + 1) * PixelsPerTile
  {
    f.x * f.sourceHeight / PixelsPerTile
  }

  /** Every frame of `s` has a width that can be divided by. */
  predicate Drawable(s: seq<Frame>)
  {
    forall i :: 0 <= i < |s| ==> s[i].sourceWidth > 0
  }

  /** The display time of `s` in ms. */
  function DurationMs(s: seq<Frame>): nat
  {
    if s == [] then 0 else DurationMs(s[..|s| - 1]) + s[|s| - 1].duration
  }

  /** The sum of the tick durations of `s`: rounding each frame down loses
      less than one tick per frame against the total display time. */
  function TotalTicks(s: seq<Frame>): (r: nat)
    ensures r * MsPerTick <= DurationMs(s)
    ensures s != [] ==> DurationMs(s) < (r + |s|) * MsPerTick
  {
    if s == [] then 0 else TotalTicks(s[..|s| - 1]) + Ticks(s[|s| - 1])
  }

  /** The schedule entries of `s`, built as the walk builds them. */
  function Timings(s: seq<Frame>): (r: seq<FrameTiming>)
    requires Drawable(s)
    ensures |r| == |s|
  {
    if s == [] then [] else Timings(s[..|s| - 1]) + [FrameTiming(TileIndex(s[|s| - 1]), TotalTicks(s))]
  }

  /** The schedule of a tag, or the division failure of the first frame
      with zero width. */
  function TimingOf(tag: Tag, frames: seq<Frame>): (r: Result<Timing>)
    requires InRange(tag, |frames|)
    ensures r.Success? ==> |r.value.frameTimings| == |PlaybackSequence(tag, frames)|
  {
    var p := PlaybackSequence(tag, frames);
    if Drawable(p) then Success(Timing(TotalTicks(p), Timings(p))) else Failure(ZeroDivision)
  }

  /** The tile index is the source's formula (x / w) * (w * h / 64), taken
      in exact arithmetic and rounded down. */
  lemma TileIndexMatchesFormula(f: Frame)
    requires f.sourceWidth > 0
    ensures TileIndex(f) == ((f.x as real / f.sourceWidth as real) *
                             (f.sourceWidth as real * f.sourceHeight as real / 64.0)).Floor
  {
    var w := f.sourceWidth as real;
    var a := f.x * f.sourceHeight;
    var q, r := a / 64, a % 64;
    assert (f.x as real / w) * (w * f.sourceHeight as real / 64.0) == a as real / 64.0;
    assert a as real / 64.0 == q as real + r as real / 64.0;
    assert 0.0 <= r as real / 64.0 < 1.0;
  }

  /** The total of a concatenation is the sum of the totals. */
  lemma {:induction false} TotalTicksAppend(a: seq<Frame>, b: seq<Frame>)
    ensures TotalTicks(a + b) == TotalTicks(a) + TotalTicks(b)
    decreases |b|
  {
    if b == [] {
      assert a + b == a;
    } else {
      var b' := b[..|b| - 1];
      assert (a + b)[..|a + b| - 1] == a + b';
      TotalTicksAppend(a, b');
    }
  }

  /** A longer prefix never has fewer ticks. */
  lemma PrefixTicksMonotone(s: seq<Frame>, i: nat, j: nat)
    requires i <= j <= |s|
    ensures TotalTicks(s[..i]) <= TotalTicks(s[..j])
  {
    assert s[..j] == s[..i] + s[i..j];
    TotalTicksAppend(s[..i], s[i..j]);
  }

  /** One entry per frame; entry i shows the tile of frame i and ends at the
      running total of ticks over frames 0 .. i. */
  lemma {:induction false} TimingsAt(s: seq<Frame>)
    requires Drawable(s)
    ensures |Timings(s)| == |s|
    ensures forall i :: 0 <= i < |s| ==>
      Timings(s)[i] == FrameTiming(TileIndex(s[i]), TotalTicks(s[..i + 1]))
  {
    if s != [] {
      var init := s[..|s| - 1];
      TimingsAt(init);
      forall i | 0 <= i < |s| ensures Timings(s)[i] == FrameTiming(TileIndex(s[i]), TotalTicks(s[..i + 1])) {
        if i < |s| - 1 {
          assert init[..i + 1] == s[..i + 1];
        } else {
          assert s[..i + 1] == s;
        }
      }
    }
  }

  /** The running sum: each boundary is the previous one (0 before the
      first) plus the frame's own ticks. */
  lemma BoundaryStep(s: seq<Frame>, i: nat)
    requires Drawable(s) && i < |s|
    ensures |Timings(s)| == |s|
    ensures Timings(s)[i].lastFrame == (if i == 0 then 0 else Timings(s)[i - 1].lastFrame) + Ticks(s[i])
  {
    TimingsAt(s);
    assert s[..i + 1][..i] == s[..i];
  }

  /** A frame shorter than one tick still gets an entry, and that entry ends
      where the previous one ends (at 0 if it is the first). */
  lemma ShortFrameAddsNothing(s: seq<Frame>, i: nat)
    requires Drawable(s) && i < |s| && s[i].duration < MsPerTick
    ensures |Timings(s)| == |s|
    ensures Timings(s)[i].lastFrame == if i == 0 then 0 else Timings(s)[i - 1].lastFrame
  {
    BoundaryStep(s, i);
  }

  /** Boundaries never decrease along the schedule. */
  lemma BoundariesMonotone(s: seq<Frame>, i: nat, j: nat)
    requires Drawable(s) && i <= j < |s|
    ensures |Timings(s)| == |s|
    ensures Timings(s)[i].lastFrame <= Timings(s)[j].lastFrame
  {
    TimingsAt(s);
    PrefixTicksMonotone(s, i + 1, j + 1);
  }

  /** The last boundary is the total tick count. */
  lemma LastBoundaryIsTotal(s: seq<Frame>)
    requires Drawable(s) && s != []
    ensures |Timings(s)| == |s|
    ensures Timings(s)[|s| - 1].lastFrame == TotalTicks(s)
  {
    TimingsAt(s);
    assert s[..|s|] == s;
  }

  /** Every boundary is at most the total. */
  lemma BoundariesBounded(s: seq<Frame>, i: nat)
    requires Drawable(s) && i < |s|
    ensures |Timings(s)| == |s|
    ensures Timings(s)[i].lastFrame <= TotalTicks(s)
  {
    BoundariesMonotone(s, i, |s| - 1);
    LastBoundaryIsTotal(s);
  }

  /** What a tag's schedule is, in the tag's own terms: it fails exactly
      when a frame it plays has zero width; otherwise it has one entry per
      played frame, `to - from + 1` of them for any direction but
      "pingpong", and its total is the last boundary. */
  lemma ScheduleShape(tag: Tag, frames: seq<Frame>)
    requires InRange(tag, |frames|)
    ensures TimingOf(tag, frames).Success? <==>
      forall k :: 0 <= k < |PlaybackSequence(tag, frames)| ==> PlaybackSequence(tag, frames)[k].sourceWidth > 0
    ensures TimingOf(tag, frames).Success? ==>
      var t := TimingOf(tag, frames).value;
      |t.frameTimings| == |PlaybackSequence(tag, frames)| &&
      (tag.direction != PingPong ==> |t.frameTimings| == tag.to - tag.from + 1) &&
      0 < |t.frameTimings| && t.frameTimings[|t.frameTimings| - 1].lastFrame == t.totalFrames
  {
    var p := PlaybackSequence(tag, frames);
    if Drawable(p) {
      TimingsAt(p);
      LastBoundaryIsTotal(p);
    }
  }

  // ---------------------------------------------------------------------
  // calculate_timing
  // ---------------------------------------------------------------------

  /** One step of the walk: extending the walked prefix by frame i adds
      that frame's ticks to the total and appends its entry. */
  lemma StepTimings(s: seq<Frame>, i: nat)
    requires i < |s| && Drawable(s[..i]) && s[i].sourceWidth > 0
    ensures Drawable(s[..i + 1])
    ensures TotalTicks(s[..i + 1]) == TotalTicks(s[..i]) + Ticks(s[i])
    ensures Timings(s[..i + 1]) == Timings(s[..i]) + [FrameTiming(TileIndex(s[i]), TotalTicks(s[..i + 1]))]
  {
    assert s[..i + 1][..i] == s[..i];
  }

  /** Builds the playback sequence, extending the forward slice in place
      for "pingpong", then walks it keeping a running tick total and
      appending one entry per frame. */
  method CalculateTiming(tag: Tag, frames: seq<Frame>) returns (r: Result<Timing>)
    requires InRange(tag, |frames|)
    ensures r == TimingOf(tag, frames)
  {
    var tagFrames := frames[tag.from..tag.to + 1];
    if tag.direction == PingPong {
      tagFrames := tagFrames + SliceBackward(frames, tag.to - 1, tag.from);
    }
    ghost var p := PlaybackSequence(tag, frames);
    assert tagFrames == p;

    var totalFrames: nat := 0;
    var frameTimings: seq<FrameTiming> := [];
    var i := 0;
    while i < |tagFrames|
      invariant i <= |tagFrames|
      invariant Drawable(tagFrames[..i])
      invariant totalFrames == TotalTicks(tagFrames[..i])
      invariant frameTimings == Timings(tagFrames[..i])
    {
      var frame := tagFrames[i];
      if frame.sourceWidth == 0 {
        assert !Drawable(tagFrames);
        return Failure(ZeroDivision);
      }
      var tid := TileIndex(frame);
      var frameDuration := Ticks(frame);
      totalFrames := totalFrames + frameDuration;
      frameTimings := frameTimings + [FrameTiming(tid, totalFrames)];
      StepTimings(tagFrames, i);
      i := i + 1;
    }
    assert tagFrames[..i] == tagFrames;
    r := Success(Timing(totalFrames, frameTimings));
  }
}

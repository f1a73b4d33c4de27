/** Worked schedules for small sheets. */
module AnimationExamples {
  import opened AnimationTiming

  /** A 64x64 sprite, 8 tiles of 8x8 per sheet row, shown for `ms` ms at offset `x`. */
  function Sprite(x: nat, ms: nat): Frame
  {
    Frame(x, 0, 64, 64, ms)
  }

  /** Two 160 ms frames at offsets 0 and 8: ten ticks each, tiles 0 and 8. */
  lemma TwoFramesForward()
    ensures TimingOf(Tag("walk", 0, 1, "forward"), [Sprite(0, 160), Sprite(8, 160)])
      == Success(Timing(20, [FrameTiming(0, 10), FrameTiming(8, 20)]))
  {
    var s := [Sprite(0, 160), Sprite(8, 160)];
    assert PlaybackSequence(Tag("walk", 0, 1, "forward"), s) == s;
    assert s[..1] == [s[0]] && s[..2] == s && s[..|s| - 1] == [s[0]];
    assert TotalTicks([s[0]]) == 10 && Ticks(s[1]) == 10;
    assert TotalTicks(s) == TotalTicks(s[..1]) + Ticks(s[1]) == 20;
    assert Drawable(s);
    TimingsAt(s);
    assert Timings(s) == [FrameTiming(0, 10), FrameTiming(8, 20)];
  }

  /** "pingpong" over two frames has no interior: it plays like "forward". */
  lemma TwoFramesPingPong()
    ensures TimingOf(Tag("walk", 0, 1, "pingpong"), [Sprite(0, 160), Sprite(8, 160)])
      == TimingOf(Tag("walk", 0, 1, "forward"), [Sprite(0, 160), Sprite(8, 160)])
  {
    PingPongPlayback(Tag("walk", 0, 1, "pingpong"), [Sprite(0, 160), Sprite(8, 160)]);
  }

  /** "pingpong" on a tag covering only frame 0 of a two-frame sheet plays
      both frames: the backward slice wraps round to the last frame, so the
      schedule is the one of the whole sheet played forward. */
  lemma FirstFramePingPongWraps()
    ensures PlaybackSequence(Tag("idle", 0, 0, "pingpong"), [Sprite(0, 160), Sprite(8, 160)])
      == [Sprite(0, 160), Sprite(8, 160)]
    ensures TimingOf(Tag("idle", 0, 0, "pingpong"), [Sprite(0, 160), Sprite(8, 160)])
      == Success(Timing(20, [FrameTiming(0, 10), FrameTiming(8, 20)]))
  {
    var s := [Sprite(0, 160), Sprite(8, 160)];
    PingPongWrapAround(Tag("idle", 0, 0, "pingpong"), s);
    assert Reversed(s[1..]) == [s[1]];
    TwoFramesForward();
    assert PlaybackSequence(Tag("walk", 0, 1, "forward"), s) == s;
  }

  /** An 8 ms frame adds no ticks but keeps its entry. */
  lemma ShortFrameKept()
    ensures TimingOf(Tag("blink", 0, 2, "forward"), [Sprite(0, 160), Sprite(8, 8), Sprite(16, 160)])
      == Success(Timing(20, [FrameTiming(0, 10), FrameTiming(8, 10), FrameTiming(16, 20)]))
  {
    var s := [Sprite(0, 160), Sprite(8, 8), Sprite(16, 160)];
    assert PlaybackSequence(Tag("blink", 0, 2, "forward"), s) == s;
    assert s[..1] == [s[0]] && s[..3] == s;
    assert s[..2] == [s[0], s[1]] && [s[0], s[1]][..1] == [s[0]];
    assert TotalTicks([s[0]]) == 10;
    assert TotalTicks([s[0], s[1]]) == 10 && TotalTicks(s) == 20;
    assert Drawable(s);
    TimingsAt(s);
    assert Timings(s) == [FrameTiming(0, 10), FrameTiming(8, 10), FrameTiming(16, 20)];
  }
}

/** Assembly of the animation model of one sprite sheet: its base name and
    every frame tag paired with that tag's schedule, in declaration order.
    The model is what the header and implementation templates render. */
module AnimationModel {
  import opened AnimationTiming

  /** The parts of an exported sprite-sheet description the model reads:
      the frames in sheet order, the image file name and the frame tags. */
  datatype Sheet = Sheet(frames: seq<Frame>, image: string, frameTags: seq<Tag>)

  /** A frame tag together with its schedule. */
  datatype TimedTag = TimedTag(tag: Tag, timing: Timing)

  /** The animation model: a base name and the timed tags. */
  datatype Animation = Animation(name: string, tags: seq<TimedTag>)

  /** Every tag of `tags` lies inside a sheet of `count` frames. */
  predicate TagsInRange(tags: seq<Tag>, count: nat)
  {
    forall i :: 0 <= i < |tags| ==> InRange(tags[i], count)
  }

  /** The text before the first '.', or the whole text if it has none. */
  function BaseName(image: string): (r: string)
    ensures |r| <= |image| && r == image[..|r|]
    ensures '.' !in r
    ensures |r| < |image| ==> image[|r|] == '.'
  {
    if image == [] || image[0] == '.' then [] else [image[0]] + BaseName(image[1..])
  }

  /** A file name `stem.ext` whose stem has no '.' gives that stem. */
  lemma {:induction false} BaseNameOfFileName(stem: string, ext: string)
    requires '.' !in stem
    ensures BaseName(stem + "." + ext) == stem
  {
    if stem != [] {
      assert (stem + "." + ext)[1..] == stem[1..] + "." + ext;
      BaseNameOfFileName(stem[1..], ext);
    }
  }

  /** Pairs every tag with its schedule, in order; the first failed
      schedule makes the whole list fail. */
  function PairTimings(tags: seq<Tag>, timings: seq<Result<Timing>>): (r: Result<seq<TimedTag>>)
    requires |timings| == |tags|
    ensures r.Success? <==> forall i :: 0 <= i < |tags| ==> timings[i].Success?
    ensures r.Success? ==> |r.value| == |tags|
    ensures r.Success? ==> forall i :: 0 <= i < |tags| ==> r.value[i] == TimedTag(tags[i], timings[i].value)
  {
    if tags == [] then Success([])
    else if timings[0].Failure? then Failure(timings[0].error)
    else
      match PairTimings(tags[1..], timings[1..])
      case Failure(e) => Failure(e)
      case Success(rest) => Success([TimedTag(tags[0], timings[0].value)] + rest)
  }

  /** Times every tag in order; the first tag whose schedule fails makes
      the whole list fail. */
  function TimeTags(tags: seq<Tag>, frames: seq<Frame>): (r: Result<seq<TimedTag>>)
    requires TagsInRange(tags, |frames|)
    ensures r.Success? <==> forall i :: 0 <= i < |tags| ==> TimingOf(tags[i], frames).Success?
    ensures r.Success? ==> |r.value| == |tags|
    ensures r.Success? ==> forall i :: 0 <= i < |tags| ==>
      r.value[i] == TimedTag(tags[i], TimingOf(tags[i], frames).value)
  {
    var timings := seq(|tags|, i requires 0 <= i < |tags| => TimingOf(tags[i], frames));
    assert forall i :: 0 <= i < |tags| ==> timings[i] == TimingOf(tags[i], frames);
    PairTimings(tags, timings)
  }

  /** The animation model of a sheet. */
  function BuildAnimation(sheet: Sheet): (r: Result<Animation>)
    requires TagsInRange(sheet.frameTags, |sheet.frames|)
    ensures r.Success? <==>
      forall i :: 0 <= i < |sheet.frameTags| ==> TimingOf(sheet.frameTags[i], sheet.frames).Success?
    ensures r.Success? ==> r.value.name == BaseName(sheet.image) && |r.value.tags| == |sheet.frameTags|
    ensures r.Success? ==> forall i :: 0 <= i < |sheet.frameTags| ==>
      r.value.tags[i].tag == sheet.frameTags[i] &&
      Success(r.value.tags[i].timing) == TimingOf(sheet.frameTags[i], sheet.frames)
  {
    match TimeTags(sheet.frameTags, sheet.frames)
    case Failure(e) => Failure(e)
    case Success(tags) => Success(Animation(BaseName(sheet.image), tags))
  }
}

/**
  The clip plan of modules/video_maker.py: how long each image is shown,
  either from the length of its narration text or from the scene timings
  of the audio distributor, and the total length. A clip is abstracted to
  the pair (image path, duration); MoviePy's clip objects, concatenation,
  audio muxing and file output are not modelled.
*/
module VideoMaker {
  import opened Wrappers
  import opened AudioAnalyzer

  /** Display time of an image without narration text (the closing museum frame), from modules/constants.py. */
  const DefaultFinalSceneDuration: real := 5.0
  /** Defaults of `video.base_duration` and `video.duration_per_char`. */
  const DefaultBaseDuration: real := 1.5
  const DefaultDurationPerChar: real := 0.08

  /** The `video` settings the clip plan reads. */
  datatype Config = Config(baseDuration: real, durationPerChar: real)

  const DefaultConfig: Config := Config(DefaultBaseDuration, DefaultDurationPerChar)

  /** An image clip: the image file and how long it is shown. */
  datatype Clip = Clip(path: string, duration: real)

  /** Python's `round` to an integer on an exact value: the nearest integer, ties to the even one. */
  function RoundHalfEven(y: real): (n: int)
    ensures -0.5 <= n as real - y <= 0.5
    ensures y - (y.Floor as real) != 0.5 ==> (n == y.Floor || n == y.Floor + 1)
    ensures y - (y.Floor as real) == 0.5 ==> n % 2 == 0
  {
    var f := y.Floor;
    var frac := y - f as real;
    if frac > 0.5 then f + 1
    else if frac < 0.5 then f
    else if f % 2 == 0 then f
    else f + 1
  }

  /** Rounding to the nearest integer never reverses the order of two values. */
  lemma RoundHalfEvenMonotone(x: real, y: real)
    requires x <= y
    ensures RoundHalfEven(x) <= RoundHalfEven(y)
  {
    if RoundHalfEven(x) > RoundHalfEven(y) {
      assert false;
    }
  }

  /** `round(x, 1)` on an exact value: the nearest multiple of 0.1. */
  function RoundTenth(x: real): (r: real)
    ensures -0.05 <= r - x <= 0.05
    ensures (r * 10.0).Floor as real == r * 10.0
  {
    var n := RoundHalfEven(x * 10.0);
    assert (n as real / 10.0) * 10.0 == n as real;
    n as real / 10.0
  }

  /** The unrounded display time of a text of `chars` characters. */
  function LinearDuration(cfg: Config, chars: nat): real {
    cfg.baseDuration + chars as real * cfg.durationPerChar
  }

  /** With a non-negative per-character time, more characters never mean less time. */
  lemma LinearDurationMonotone(cfg: Config, m: nat, n: nat)
    requires cfg.durationPerChar >= 0.0 && m <= n
    ensures LinearDuration(cfg, m) <= LinearDuration(cfg, n)
  {
    var p := cfg.durationPerChar;
    assert n as real * p - m as real * p == (n - m) as real * p;
  }

  /**
    `calculate_duration`: the base duration plus a fixed time per character
    of the text, rounded to a tenth of a second.
  */
  function CalculateDuration(cfg: Config, text: string): (d: real)
    ensures -0.05 <= d - LinearDuration(cfg, |text|) <= 0.05
  {
    RoundTenth(LinearDuration(cfg, |text|))
  }

  /** Rounding to a tenth never reverses the order of two values. */
  lemma RoundTenthMonotone(x: real, y: real)
    requires x <= y
    ensures RoundTenth(x) <= RoundTenth(y)
  {
    RoundHalfEvenMonotone(x * 10.0, y * 10.0);
  }

  /** With a non-negative per-character time, a longer text is never shown for less time. */
  lemma CalculateDurationMonotone(cfg: Config, s: string, t: string)
    requires cfg.durationPerChar >= 0.0 && |s| <= |t|
    ensures CalculateDuration(cfg, s) <= CalculateDuration(cfg, t)
  {
    LinearDurationMonotone(cfg, |s|, |t|);
    RoundTenthMonotone(LinearDuration(cfg, |s|), LinearDuration(cfg, |t|));
  }

  /** With the default settings a 25-character subtitle is shown for 3.5 seconds. */
  lemma CalculateDurationExample()
    ensures CalculateDuration(DefaultConfig, "The harvest at dusk, 1888") == 3.5
  {
  }

  /** The display time of image `i` in text-length mode: from its text, or the default when the text is missing or None. */
  function SceneDuration(cfg: Config, texts: seq<Option<string>>, i: nat): (d: real)
    ensures i < |texts| && texts[i].Some? ==> d == CalculateDuration(cfg, texts[i].value)
    ensures i >= |texts| || texts[i].None? ==> d == DefaultFinalSceneDuration
  {
    if i < |texts| && texts[i].Some? then CalculateDuration(cfg, texts[i].value) else DefaultFinalSceneDuration
  }

  function SumClips(clips: seq<Clip>): real {
    if clips == [] then 0.0 else SumClips(clips[..|clips| - 1]) + clips[|clips| - 1].duration
  }

  /**
    `_create_image_clips`: one clip per image, in file order, each shown for
    the time its text calls for, and the total of those times.
  */
  method CreateImageClips(cfg: Config, imageFiles: seq<string>, texts: seq<Option<string>>)
    returns (clips: seq<Clip>, totalDuration: real)
    ensures |clips| == |imageFiles|
    ensures forall i :: 0 <= i < |imageFiles| ==> clips[i] == Clip(imageFiles[i], SceneDuration(cfg, texts, i))
    ensures totalDuration == SumClips(clips)
  {
    clips := [];
    totalDuration := 0.0;
    var i := 0;
    while i < |imageFiles|
      invariant 0 <= i <= |imageFiles|
      invariant |clips| == i
      invariant forall j :: 0 <= j < i ==> clips[j] == Clip(imageFiles[j], SceneDuration(cfg, texts, j))
      invariant totalDuration == SumClips(clips)
    {
      var duration;
      if i < |texts| && texts[i].Some? {
        duration := CalculateDuration(cfg, texts[i].value);
      } else {
        duration := DefaultFinalSceneDuration;
      }
      ghost var before := clips;
      clips := clips + [Clip(imageFiles[i], duration)];
      assert clips[..|clips| - 1] == before;
      totalDuration := totalDuration + duration;
      i := i + 1;
    }
  }

  /**
    The clips of timing mode: for each scene timing in order, the image of
    its scene shown for the timing's duration; a timing whose scene index
    is past the last image is skipped.
  */
  function TimedClips(imageFiles: seq<string>, timings: seq<SceneSlot>): seq<Clip> {
    if timings == [] then []
    else
      var init := TimedClips(imageFiles, timings[..|timings| - 1]);
      var t := timings[|timings| - 1];
      if t.sceneIndex >= |imageFiles| then init else init + [Clip(imageFiles[t.sceneIndex], t.duration)]
  }

  /** Every timing's scene has an image. */
  predicate AllScenesHaveImages(imageFiles: seq<string>, timings: seq<SceneSlot>) {
    forall i :: 0 <= i < |timings| ==> timings[i].sceneIndex < |imageFiles|
  }

  /** Timing mode yields at most one clip per timing, and exactly one per timing when every scene has an image. */
  lemma {:induction false} TimedClipsLength(imageFiles: seq<string>, timings: seq<SceneSlot>)
    ensures |TimedClips(imageFiles, timings)| <= |timings|
    ensures AllScenesHaveImages(imageFiles, timings) <==> |TimedClips(imageFiles, timings)| == |timings|
    decreases |timings|
  {
    if timings != [] {
      var init := timings[..|timings| - 1];
      TimedClipsLength(imageFiles, init);
      if !AllScenesHaveImages(imageFiles, timings) && !AllScenesHaveImages(imageFiles, init) {
        var j :| 0 <= j < |init| && init[j].sceneIndex >= |imageFiles|;
        assert timings[j] == init[j];
      }
    }
  }

  /** The timings whose scene has an image, in their original order. */
  function KeptTimings(imageFiles: seq<string>, timings: seq<SceneSlot>): (r: seq<SceneSlot>)
    ensures |r| <= |timings|
    ensures forall i :: 0 <= i < |r| ==> r[i].sceneIndex < |imageFiles|
    ensures forall t :: t in r <==> t in timings && t.sceneIndex < |imageFiles|
  {
    if timings == [] then []
    else
      var init := KeptTimings(imageFiles, timings[..|timings| - 1]);
      var t := timings[|timings| - 1];
      assert timings == timings[..|timings| - 1] + [t];
      if t.sceneIndex >= |imageFiles| then init else init + [t]
  }

  /**
    Timing mode skips exactly the timings whose scene has no image: clip
    `i` shows the image of the `i`-th kept timing for that timing's duration.
  */
  lemma {:induction false} TimedClipsKept(imageFiles: seq<string>, timings: seq<SceneSlot>)
    ensures var kept := KeptTimings(imageFiles, timings);
      var r := TimedClips(imageFiles, timings);
      && |r| == |kept|
      && forall i :: 0 <= i < |r| ==> r[i] == Clip(imageFiles[kept[i].sceneIndex], kept[i].duration)
    decreases |timings|
  {
    if timings != [] {
      TimedClipsKept(imageFiles, timings[..|timings| - 1]);
    }
  }

  /** Every clip of timing mode is the image of some timing's scene, shown for that timing's duration. */
  lemma TimedClipsMembers(imageFiles: seq<string>, timings: seq<SceneSlot>)
    ensures forall c :: c in TimedClips(imageFiles, timings) ==>
      exists t :: t in timings && t.sceneIndex < |imageFiles| && c == Clip(imageFiles[t.sceneIndex], t.duration)
  {
    var kept := KeptTimings(imageFiles, timings);
    var r := TimedClips(imageFiles, timings);
    TimedClipsKept(imageFiles, timings);
    forall c | c in r
      ensures exists t :: t in timings && t.sceneIndex < |imageFiles| && c == Clip(imageFiles[t.sceneIndex], t.duration)
    {
      var i :| 0 <= i < |r| && r[i] == c;
      assert kept[i] in kept;
    }
  }

  /**
    When every scene has an image, clip `i` of timing mode shows the image of
    timing `i` for its duration, so the clips last as long as the timings.
  */
  lemma TimedClipsAllScenes(imageFiles: seq<string>, timings: seq<SceneSlot>)
    requires AllScenesHaveImages(imageFiles, timings)
    ensures |TimedClips(imageFiles, timings)| == |timings|
    ensures forall i :: 0 <= i < |timings| ==>
      TimedClips(imageFiles, timings)[i] == Clip(imageFiles[timings[i].sceneIndex], timings[i].duration)
    ensures SumClips(TimedClips(imageFiles, timings)) == SumDurations(timings)
  {
    KeptAllTimings(imageFiles, timings);
    TimedClipsKept(imageFiles, timings);
    TimedClipsSum(imageFiles, timings);
  }

  /** When every scene has an image, every timing is kept. */
  lemma {:induction false} KeptAllTimings(imageFiles: seq<string>, timings: seq<SceneSlot>)
    requires AllScenesHaveImages(imageFiles, timings)
    ensures KeptTimings(imageFiles, timings) == timings
    decreases |timings|
  {
    if timings != [] {
      var init := timings[..|timings| - 1];
      assert AllScenesHaveImages(imageFiles, init);
      KeptAllTimings(imageFiles, init);
      assert timings == init + [timings[|timings| - 1]];
    }
  }

  /** When every scene has an image, the timed clips last as long as the timings. */
  lemma {:induction false} TimedClipsSum(imageFiles: seq<string>, timings: seq<SceneSlot>)
    requires AllScenesHaveImages(imageFiles, timings)
    ensures SumClips(TimedClips(imageFiles, timings)) == SumDurations(timings)
    decreases |timings|
  {
    if timings != [] {
      var init := timings[..|timings| - 1];
      var t := timings[|timings| - 1];
      assert AllScenesHaveImages(imageFiles, init);
      TimedClipsSum(imageFiles, init);
      var r0 := TimedClips(imageFiles, init);
      var r := TimedClips(imageFiles, timings);
      assert r == r0 + [Clip(imageFiles[t.sceneIndex], t.duration)];
      assert r[..|r| - 1] == r0;
    }
  }

  /**
    `_create_image_clips_with_timings`: the clips of TimedClips, built in
    timing order, and the total of their durations.
  */
  method CreateImageClipsWithTimings(imageFiles: seq<string>, sceneTimings: seq<SceneSlot>)
    returns (clips: seq<Clip>, totalDuration: real)
    ensures clips == TimedClips(imageFiles, sceneTimings)
    ensures |clips| <= |sceneTimings|
    ensures totalDuration == SumClips(clips)
  {
    clips := [];
    totalDuration := 0.0;
    var k := 0;
    while k < |sceneTimings|
      invariant 0 <= k <= |sceneTimings|
      invariant clips == TimedClips(imageFiles, sceneTimings[..k])
      invariant totalDuration == SumClips(clips)
    {
      var timing := sceneTimings[k];
      assert sceneTimings[..k + 1][..k] == sceneTimings[..k];
      if timing.sceneIndex < |imageFiles| {
        ghost var before := clips;
        clips := clips + [Clip(imageFiles[timing.sceneIndex], timing.duration)];
        assert clips[..|clips| - 1] == before;
        totalDuration := totalDuration + timing.duration;
      }
      k := k + 1;
    }
    assert sceneTimings[..k] == sceneTimings;
    TimedClipsLength(imageFiles, sceneTimings);
  }

  /** `create_video` uses the scene timings exactly when they are given and non-empty. */
  predicate UsesTimingMode(sceneTimings: Option<seq<SceneSlot>>) {
    sceneTimings.Some? && sceneTimings.value != []
  }

  /**
    The clip plan of `create_video`: timing mode for a non-empty list of scene
    timings, text-length mode for None or an empty list.
  */
  method CreateVideoClips(cfg: Config, imageFiles: seq<string>, texts: seq<Option<string>>, sceneTimings: Option<seq<SceneSlot>>)
    returns (clips: seq<Clip>, totalDuration: real)
    ensures UsesTimingMode(sceneTimings) ==> clips == TimedClips(imageFiles, sceneTimings.value)
    ensures !UsesTimingMode(sceneTimings) ==>
      && |clips| == |imageFiles|
      && forall i :: 0 <= i < |imageFiles| ==> clips[i] == Clip(imageFiles[i], SceneDuration(cfg, texts, i))
    ensures totalDuration == SumClips(clips)
  {
    if sceneTimings.Some? && sceneTimings.value != [] {
      clips, totalDuration := CreateImageClipsWithTimings(imageFiles, sceneTimings.value);
    } else {
      clips, totalDuration := CreateImageClips(cfg, imageFiles, texts);
    }
  }

  /**
    With the scenes allocated for as many scenes as there are images (as the
    program's entry point does), timing mode shows every image once, in
    order, for the duration allocated to it.
  */
  lemma TimedClipsOfAllocation(imageFiles: seq<string>, slots: seq<SceneSlot>, duration: real)
    requires |slots| == |imageFiles| > 0
    requires forall i :: 0 <= i < |slots| ==> slots[i].sceneIndex == i
    requires Contiguous(slots, duration)
    ensures var r := TimedClips(imageFiles, slots);
      && |r| == |imageFiles|
      && (forall i :: 0 <= i < |r| ==> r[i] == Clip(imageFiles[i], slots[i].duration))
  {
    assert AllScenesHaveImages(imageFiles, slots);
    TimedClipsAllScenes(imageFiles, slots);
  }

  /**
    With the same allocation, the video lasts from the first scene's start
    to the end of the audio.
  */
  lemma TimedDurationOfAllocation(imageFiles: seq<string>, slots: seq<SceneSlot>, duration: real)
    requires |slots| == |imageFiles| > 0
    requires forall i :: 0 <= i < |slots| ==> slots[i].sceneIndex == i
    requires Contiguous(slots, duration)
    ensures SumClips(TimedClips(imageFiles, slots)) == duration - slots[0].start
  {
    assert AllScenesHaveImages(imageFiles, slots);
    TimedClipsAllScenes(imageFiles, slots);
    ContiguousSum(slots, duration);
  }
}

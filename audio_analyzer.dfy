/**
  Scene timing of modules/audio_analyzer.py: merging beat and onset
  timestamps into a minimum-spaced timeline, and allocating a number of
  scenes over a chosen timestamp list. The librosa analysis that produces
  the beats, onsets and duration is not modelled: they are inputs.
  Timestamps are exact reals.
*/
module AudioAnalyzer {

  /** A timeline whose first anchor is later than this gets a 0.0 anchor prepended. */
  const LeadInTolerance: real := 0.1

  predicate StrictlyIncreasing(s: seq<real>) {
    forall i, j :: 0 <= i < j < |s| ==> s[i] < s[j]
  }

  // ---------------------------------------------------------------------
  // sorted(set(beats + onsets))
  // ---------------------------------------------------------------------

  /** Insert `x` into a strictly increasing sequence unless it is already there. */
  function Insert(s: seq<real>, x: real): (r: seq<real>)
    requires StrictlyIncreasing(s)
    ensures StrictlyIncreasing(r)
    ensures forall v :: v in r <==> v in s || v == x
  {
    if s == [] then [x]
    else if x < s[0] then
      ConsIncreasing(x, s);
      [x] + s
    else if x == s[0] then s
    else
      var t := Insert(s[1..], x);
      assert forall j :: 0 <= j < |t| ==> t[j] in t && s[0] < t[j];
      ConsIncreasing(s[0], t);
      [s[0]] + t
  }

  /** A value below every element of a strictly increasing sequence can go in front of it. */
  lemma ConsIncreasing(x: real, s: seq<real>)
    requires StrictlyIncreasing(s)
    requires forall j :: 0 <= j < |s| ==> x < s[j]
    ensures StrictlyIncreasing([x] + s)
  {
    var r := [x] + s;
    forall i, j | 0 <= i < j < |r| ensures r[i] < r[j] {
      assert r[j] == s[j - 1];
      if i > 0 {
        assert r[i] == s[i - 1];
      }
    }
  }

  /** `sorted(set(xs))`: the distinct values of `xs` in increasing order. */
  function SortedSet(xs: seq<real>): (r: seq<real>)
    ensures StrictlyIncreasing(r)
    ensures forall v :: v in r <==> v in xs
  {
    if xs == [] then [] else Insert(SortedSet(xs[..|xs| - 1]), xs[|xs| - 1])
  }

  // ---------------------------------------------------------------------
  // the greedy minimum-interval filter
  // ---------------------------------------------------------------------

  /**
    The filter of `_calculate_scene_timings`: walking `xs` in order, a
    timestamp is kept when it lies at least `minInterval` after the last
    kept one (`last` before anything is kept), and dropped otherwise.
  */
  function GreedyFilter(xs: seq<real>, last: real, minInterval: real): seq<real>
    decreases |xs|
  {
    if xs == [] then []
    else if xs[0] - last >= minInterval then [xs[0]] + GreedyFilter(xs[1..], xs[0], minInterval)
    else GreedyFilter(xs[1..], last, minInterval)
  }

  /** The filter keeps a strictly increasing selection of its input. */
  lemma {:induction false} GreedyFilterIncreasing(xs: seq<real>, last: real, minInterval: real)
    requires StrictlyIncreasing(xs)
    ensures StrictlyIncreasing(GreedyFilter(xs, last, minInterval))
    ensures forall v :: v in GreedyFilter(xs, last, minInterval) ==> v in xs
    decreases |xs|
  {
    if xs != [] {
      var rest := xs[1..];
      assert StrictlyIncreasing(rest);
      if xs[0] - last >= minInterval {
        GreedyFilterIncreasing(rest, xs[0], minInterval);
        var t := GreedyFilter(rest, xs[0], minInterval);
        forall j | 0 <= j < |t| ensures xs[0] < t[j] {
          assert t[j] in t;
          var i :| 0 <= i < |rest| && rest[i] == t[j];
          assert rest[i] == xs[i + 1];
        }
        ConsIncreasing(xs[0], t);
      } else {
        GreedyFilterIncreasing(rest, last, minInterval);
      }
    }
  }

  /** The first kept timestamp is `minInterval` after `last`, and consecutive kept ones are `minInterval` apart. */
  lemma {:induction false} GreedyFilterSpacing(xs: seq<real>, last: real, minInterval: real)
    ensures var r := GreedyFilter(xs, last, minInterval);
      && (r != [] ==> r[0] - last >= minInterval)
      && (forall i :: 0 <= i < |r| - 1 ==> r[i + 1] - r[i] >= minInterval)
    decreases |xs|
  {
    if xs != [] {
      if xs[0] - last >= minInterval {
        GreedyFilterSpacing(xs[1..], xs[0], minInterval);
        var t := GreedyFilter(xs[1..], xs[0], minInterval);
        var r := [xs[0]] + t;
        forall i | 0 <= i < |r| - 1 ensures r[i + 1] - r[i] >= minInterval {
          if i > 0 {
            assert r[i] == t[i - 1] && r[i + 1] == t[i];
          }
        }
      } else {
        GreedyFilterSpacing(xs[1..], last, minInterval);
      }
    }
  }

  /**
    Every dropped timestamp lies less than `minInterval` after `last` or
    after a kept timestamp not later than it.
  */
  lemma {:induction false} GreedyFilterCoverage(xs: seq<real>, last: real, minInterval: real)
    requires StrictlyIncreasing(xs)
    ensures var r := GreedyFilter(xs, last, minInterval);
      forall v :: v in xs && v !in r ==>
        v - last < minInterval || exists i :: 0 <= i < |r| && r[i] <= v < r[i] + minInterval
    decreases |xs|
  {
    if xs != [] {
      var rest := xs[1..];
      assert StrictlyIncreasing(rest);
      if xs[0] - last >= minInterval {
        GreedyFilterCoverage(rest, xs[0], minInterval);
        var t := GreedyFilter(rest, xs[0], minInterval);
        var r := [xs[0]] + t;
        forall v | v in xs && v !in r
          ensures v - last < minInterval || exists i :: 0 <= i < |r| && r[i] <= v < r[i] + minInterval
        {
          assert v in rest;
          if v - xs[0] < minInterval {
            assert r[0] <= v;
          } else {
            var i :| 0 <= i < |t| && t[i] <= v < t[i] + minInterval;
            assert r[i + 1] == t[i];
          }
        }
      } else {
        GreedyFilterCoverage(rest, last, minInterval);
        assert forall v :: v in xs ==> v == xs[0] || v in rest;
      }
    }
  }

  /**
    What the filter keeps: a strictly increasing selection of `xs` whose
    first element is `minInterval` after `last` and whose consecutive
    elements are `minInterval` apart; and every dropped timestamp lies less
    than `minInterval` after `last` or after a kept timestamp not later
    than it. Spacing and this coverage together determine the greedy choice.
  */
  lemma GreedyFilterFacts(xs: seq<real>, last: real, minInterval: real)
    requires StrictlyIncreasing(xs)
    ensures var r := GreedyFilter(xs, last, minInterval);
      && StrictlyIncreasing(r)
      && (forall v :: v in r ==> v in xs)
      && (r != [] ==> r[0] - last >= minInterval)
      && (forall i :: 0 <= i < |r| - 1 ==> r[i + 1] - r[i] >= minInterval)
      && (forall v :: v in xs && v !in r ==>
            v - last < minInterval || exists i :: 0 <= i < |r| && r[i] <= v < r[i] + minInterval)
  {
    GreedyFilterIncreasing(xs, last, minInterval);
    GreedyFilterSpacing(xs, last, minInterval);
    GreedyFilterCoverage(xs, last, minInterval);
  }

  /** Before anything is kept the test is `x - (-minInterval) >= minInterval`, so the first kept timestamp is the first non-negative one. */
  lemma {:induction false} GreedyFilterStart(xs: seq<real>, minInterval: real)
    requires StrictlyIncreasing(xs)
    ensures var r := GreedyFilter(xs, -minInterval, minInterval);
      && (r != [] ==> r[0] >= 0.0)
      && (0.0 in xs ==> r != [] && r[0] == 0.0)
    decreases |xs|
  {
    if xs != [] {
      assert StrictlyIncreasing(xs[1..]);
      if xs[0] - (-minInterval) < minInterval {
        GreedyFilterStart(xs[1..], minInterval);
        assert 0.0 in xs ==> 0.0 in xs[1..];
      }
    }
  }

  /**
    `_calculate_scene_timings` as a function: the greedy filter over the
    merged, sorted, de-duplicated timestamps, with 0.0 put in front when
    nothing was kept or the first kept timestamp is later than 0.1.
  */
  function SceneTimings(beats: seq<real>, onsets: seq<real>, minInterval: real): seq<real> {
    var filtered := GreedyFilter(SortedSet(beats + onsets), -minInterval, minInterval);
    if filtered == [] || filtered[0] > LeadInTolerance then [0.0] + filtered else filtered
  }

  /** A timeline of anchors drawn from `pool`: non-negative, strictly increasing and `minInterval` apart. */
  predicate SpacedAnchors(f: seq<real>, pool: seq<real>, minInterval: real) {
    && StrictlyIncreasing(f)
    && (forall i :: 0 <= i < |f| ==> f[i] >= 0.0 && f[i] in pool)
    && (forall i :: 0 <= i < |f| - 1 ==> f[i + 1] - f[i] >= minInterval)
  }

  /** The filtered merge of beats and onsets is a spaced timeline of beats and onsets, and starts at 0.0 when 0.0 is one of them. */
  lemma FilteredFacts(beats: seq<real>, onsets: seq<real>, minInterval: real)
    ensures var f := GreedyFilter(SortedSet(beats + onsets), -minInterval, minInterval);
      && SpacedAnchors(f, beats + onsets, minInterval)
      && (0.0 in beats + onsets ==> f != [] && f[0] == 0.0)
  {
    var merged := SortedSet(beats + onsets);
    var f := GreedyFilter(merged, -minInterval, minInterval);
    GreedyFilterIncreasing(merged, -minInterval, minInterval);
    GreedyFilterSpacing(merged, -minInterval, minInterval);
    GreedyFilterStart(merged, minInterval);
    forall i | 0 <= i < |f| ensures f[i] >= 0.0 && f[i] in beats + onsets {
      assert f[0] <= f[i] && f[i] in f;
    }
  }

  /** Putting 0.0 in front of a spaced timeline that starts after 0.1 keeps it increasing and non-negative. */
  lemma PrependZeroFacts(f: seq<real>, pool: seq<real>, minInterval: real)
    requires SpacedAnchors(f, pool, minInterval)
    requires f == [] || f[0] > LeadInTolerance
    ensures var t := [0.0] + f;
      && StrictlyIncreasing(t)
      && (forall i :: 0 <= i < |t| ==> t[i] >= 0.0)
      && (forall i :: 1 <= i < |t| ==> t[i] in pool)
      && (forall i :: 1 <= i < |t| - 1 ==> t[i + 1] - t[i] >= minInterval)
  {
    var t := [0.0] + f;
    forall j | 0 <= j < |f| ensures 0.0 < f[j] {
      assert f[0] <= f[j];
    }
    ConsIncreasing(0.0, f);
    forall i | 1 <= i < |t| - 1 ensures t[i + 1] - t[i] >= minInterval {
      assert t[i] == f[i - 1] && t[i + 1] == f[i];
    }
  }

  /**
    The timeline is non-empty, starts at or before 0.1, is strictly
    increasing and non-negative; all its anchors but a prepended 0.0 are
    beats or onsets; and every anchor that is a beat or onset is followed by
    the next one at least `minInterval` later. A prepended 0.0 is not a beat
    or onset and lies more than 0.1 before its successor.
  */
  lemma SceneTimingsFacts(beats: seq<real>, onsets: seq<real>, minInterval: real)
    ensures var t := SceneTimings(beats, onsets, minInterval);
      && t != [] && 0.0 <= t[0] <= LeadInTolerance
      && StrictlyIncreasing(t)
      && (forall i :: 0 <= i < |t| ==> t[i] >= 0.0)
      && (forall i :: 1 <= i < |t| ==> t[i] in beats + onsets)
      && (t[0] !in beats + onsets ==> t[0] == 0.0 && (|t| > 1 ==> t[1] - t[0] > LeadInTolerance))
      && (forall i :: 0 <= i < |t| - 1 && t[i] in beats + onsets ==> t[i + 1] - t[i] >= minInterval)
  {
    var f := GreedyFilter(SortedSet(beats + onsets), -minInterval, minInterval);
    FilteredFacts(beats, onsets, minInterval);
    if f == [] || f[0] > LeadInTolerance {
      PrependZeroFacts(f, beats + onsets, minInterval);
    }
  }

  /**
    `_calculate_scene_timings`: merge, sort and de-duplicate the beats and
    onsets, keep each timestamp at least `minInterval` after the previously
    kept one, and put 0.0 in front when nothing was kept or the first kept
    timestamp is later than 0.1.
  */
  method CalculateSceneTimings(beats: seq<real>, onsets: seq<real>, minInterval: real) returns (timings: seq<real>)
    ensures timings == SceneTimings(beats, onsets, minInterval)
    ensures timings != [] && 0.0 <= timings[0] <= LeadInTolerance
  {
    var allTimings := SortedSet(beats + onsets);
    var filtered: seq<real> := [];
    var lastTime := -minInterval;
    var k := 0;
    while k < |allTimings|
      invariant 0 <= k <= |allTimings|
      invariant filtered + GreedyFilter(allTimings[k..], lastTime, minInterval)
        == GreedyFilter(allTimings, -minInterval, minInterval)
    {
      var time := allTimings[k];
      assert allTimings[k..][1..] == allTimings[k + 1..];
      if time - lastTime >= minInterval {
        filtered := filtered + [time];
        lastTime := time;
      }
      k := k + 1;
    }
    assert allTimings[k..] == [];
    if filtered == [] || filtered[0] > LeadInTolerance {
      filtered := [0.0] + filtered;
    }
    timings := filtered;
    GreedyFilterStart(allTimings, minInterval);
  }

  // ---------------------------------------------------------------------
  // distribute_scenes_to_timings
  // ---------------------------------------------------------------------

  /** The result of the audio analysis the distributor reads. */
  datatype AudioAnalysis = AudioAnalysis(beats: seq<real>, onsets: seq<real>, sceneTimings: seq<real>, duration: real)

  /** One allocated scene: `(scene_index, start_time, duration)`. */
  datatype SceneSlot = SceneSlot(sceneIndex: nat, start: real, duration: real)

  /** The timestamp list a strategy reads: "beats", "onsets", or the merged timeline for any other name. */
  function StrategyTimings(strategy: string, analysis: AudioAnalysis): (t: seq<real>)
    ensures strategy == "beats" ==> t == analysis.beats
    ensures strategy == "onsets" ==> t == analysis.onsets
    ensures strategy != "beats" && strategy != "onsets" ==> t == analysis.sceneTimings
  {
    if strategy == "beats" then analysis.beats
    else if strategy == "onsets" then analysis.onsets
    else analysis.sceneTimings
  }

  function SumDurations(slots: seq<SceneSlot>): real {
    if slots == [] then 0.0 else SumDurations(slots[..|slots| - 1]) + slots[|slots| - 1].duration
  }

  /** Each scene ends where the next starts, and the last ends at `end`. */
  predicate Contiguous(slots: seq<SceneSlot>, end: real) {
    && (forall i :: 0 <= i < |slots| - 1 ==> slots[i].start + slots[i].duration == slots[i + 1].start)
    && (slots != [] ==> slots[|slots| - 1].start + slots[|slots| - 1].duration == end)
  }

  /** Contiguous scenes telescope: their durations add up to the span from the first start to the end. */
  lemma {:induction false} ContiguousSum(slots: seq<SceneSlot>, end: real)
    requires slots != [] && Contiguous(slots, end)
    ensures SumDurations(slots) == end - slots[0].start
    decreases |slots|
  {
    if |slots| > 1 {
      var init := slots[..|slots| - 1];
      assert Contiguous(init, slots[|slots| - 1].start);
      ContiguousSum(init, slots[|slots| - 1].start);
    }
  }

  /** The even split: scene `i` starts at `i * d` and lasts `d = duration / numScenes`. */
  function EvenSplit(numScenes: int, duration: real): (r: seq<SceneSlot>)
    requires numScenes >= 1
    ensures |r| == numScenes
    ensures forall i :: 0 <= i < numScenes ==> r[i].sceneIndex == i && r[i].duration == duration / numScenes as real
    ensures r[0].start == 0.0 && Contiguous(r, duration)
  {
    var d := duration / numScenes as real;
    var r := seq(numScenes, i requires 0 <= i < numScenes => SceneSlot(i, i as real * d, d));
    forall i | 0 <= i < numScenes - 1 ensures r[i].start + r[i].duration == r[i + 1].start {
      EvenStep(i, d);
    }
    EvenStep(numScenes - 1, d);
    EvenTotal(duration, numScenes);
    r
  }

  lemma EvenStep(i: int, d: real)
    ensures i as real * d + d == (i + 1) as real * d
  {
  }

  lemma EvenTotal(duration: real, n: int)
    requires n >= 1
    ensures (duration / n as real) * n as real == duration
  {
  }

  /** The scenes of an even split last `duration` in total. */
  lemma EvenSplitSum(numScenes: int, duration: real)
    requires numScenes >= 1
    ensures SumDurations(EvenSplit(numScenes, duration)) == duration
  {
    ContiguousSum(EvenSplit(numScenes, duration), duration);
  }

  /** Four scenes over 40 seconds start at 0, 10, 20 and 30 and last 10 seconds each. */
  lemma EvenSplitExample()
    ensures EvenSplit(4, 40.0) == [SceneSlot(0, 0.0, 10.0), SceneSlot(1, 10.0, 10.0), SceneSlot(2, 20.0, 10.0), SceneSlot(3, 30.0, 10.0)]
  {
  }

  lemma {:induction false} MulMonotone(x: int, y: int, c: nat)
    requires x <= y
    ensures x * c <= y * c
    decreases c
  {
    if c > 0 {
      MulMonotone(x, y, c - 1);
      assert x * c == x * (c - 1) + x && y * c == y * (c - 1) + y;
    }
  }

  /** `a / c` is the largest `q` with `q * c <= a`. */
  lemma DivLowerBound(a: nat, c: nat, q: nat)
    requires c > 0 && q * c <= a
    ensures q <= a / c
  {
    var d := a / c;
    if q > d {
      MulMonotone(d + 1, q, c);
      assert false;
    }
  }

  lemma DivMonotone(a: nat, b: nat, c: nat)
    requires a <= b && c > 0
    ensures a / c <= b / c
  {
    DivLowerBound(b, c, a / c);
  }

  lemma DivExact(m: nat, c: nat)
    requires c > 0
    ensures (m * c) / c == m
  {
    DivLowerBound(m * c, c, m);
    var q := (m * c) / c;
    if q > m {
      MulMonotone(m + 1, q, c);
      assert false;
    }
  }

  lemma DivStep(a: nat, b: nat, c: nat)
    requires c > 0 && b >= c
    ensures (a + b) / c >= a / c + 1
  {
    var q := a / c;
    assert (q + 1) * c == q * c + c;
    DivLowerBound(a + b, c, q + 1);
  }

  /** Entry `i` of `np.linspace(0, n - 1, k, dtype=int)`, truncated from the exact value `i * (n - 1) / (k - 1)`. */
  function SampleIndex(i: nat, n: nat, k: nat): (r: nat)
    requires n >= 1
    ensures i < k <= n ==> r < n
  {
    if k <= 1 then 0
    else
      SampledIndexInRange(i, n, k);
      i * (n - 1) / (k - 1)
  }

  lemma SampledIndexInRange(i: nat, n: nat, k: nat)
    requires n >= 1 && k >= 2
    ensures 0 <= i * (n - 1) / (k - 1)
    ensures i < k <= n ==> i * (n - 1) / (k - 1) < n
  {
    MulMonotone(0, i, n - 1);
    if i < k <= n {
      MulMonotone(i, k - 1, n - 1);
      DivMonotone(i * (n - 1), (k - 1) * (n - 1), k - 1);
      DivExact(n - 1, k - 1);
      assert (k - 1) * (n - 1) == (n - 1) * (k - 1);
    }
  }

  /**
    With `n >= k >= 1` timestamps to choose from, the sampled indices start at
    0, end at `n - 1` when there are two scenes or more, stay in range and strictly increase, so no timestamp
    is chosen twice.
  */
  lemma SampleIndexFacts(n: nat, k: nat)
    requires n >= k >= 1
    ensures SampleIndex(0, n, k) == 0
    ensures k >= 2 ==> SampleIndex(k - 1, n, k) == n - 1
    ensures forall i :: 0 <= i < k ==> SampleIndex(i, n, k) < n
    ensures forall i, j :: 0 <= i < j < k ==> SampleIndex(i, n, k) < SampleIndex(j, n, k)
  {
    if k > 1 {
      DivExact(n - 1, k - 1);
      assert (k - 1) * (n - 1) == (n - 1) * (k - 1);
      forall i, j | 0 <= i < j < k ensures SampleIndex(i, n, k) < SampleIndex(j, n, k) {
        assert j * (n - 1) == i * (n - 1) + (j - i) * (n - 1);
        MulMonotone(1, j - i, n - 1);
        DivStep(i * (n - 1), (j - i) * (n - 1), k - 1);
      }
    }
  }

  /** The index range 0..4 of a five-anchor timeline sampled for three scenes gives indices 0, 2 and 4. */
  lemma SampleIndexExample()
    ensures SampleIndex(0, 5, 3) == 0 && SampleIndex(1, 5, 3) == 2 && SampleIndex(2, 5, 3) == 4
  {
  }

  /** The distributor falls back to the even split for "evenly" or when there are fewer timestamps than scenes. */
  predicate UsesEvenSplit(numScenes: int, analysis: AudioAnalysis, strategy: string) {
    strategy == "evenly" || |StrategyTimings(strategy, analysis)| < numScenes
  }

  /** The scenes over chosen start times: scene `j` runs from its start to the next scene's start, the last to `end`. */
  function SlotsOver(starts: seq<real>, end: real): (r: seq<SceneSlot>)
    requires starts != []
    ensures |r| == |starts| && Contiguous(r, end)
    ensures forall j :: 0 <= j < |r| ==> r[j].sceneIndex == j && r[j].start == starts[j]
    ensures forall j :: 0 <= j < |r| ==> r[j].duration == (if j < |r| - 1 then starts[j + 1] else end) - starts[j]
  {
    seq(|starts|, j requires 0 <= j < |starts| =>
      SceneSlot(j, starts[j], (if j < |starts| - 1 then starts[j + 1] else end) - starts[j]))
  }

  /** The start times the sampled path picks: `t[SampleIndex(i)]` for each of the `k` scenes. */
  function SampledStarts(t: seq<real>, k: nat): (r: seq<real>)
    requires |t| >= k >= 1
    ensures |r| == k && forall i :: 0 <= i < k ==> r[i] == t[SampleIndex(i, |t|, k)]
  {
    seq(k, i requires 0 <= i < k => t[SampleIndex(i, |t|, k)])
  }

  /**
    The sampled scenes: `k` contiguous scenes numbered in order, the first
    starting at the first timestamp, lasting until the end in total, and each
    but the last of positive length when the timestamps strictly increase.
  */
  lemma SampledSlotsFacts(t: seq<real>, k: nat, end: real)
    requires |t| >= k >= 1
    ensures var r := SlotsOver(SampledStarts(t, k), end);
      && r[0].start == t[0]
      && SumDurations(r) == end - r[0].start
      && (StrictlyIncreasing(t) ==> forall j :: 0 <= j < k - 1 ==> r[j].duration > 0.0)
  {
    var starts := SampledStarts(t, k);
    var r := SlotsOver(starts, end);
    SampleIndexFacts(|t|, k);
    ContiguousSum(r, end);
    if StrictlyIncreasing(t) {
      forall j | 0 <= j < k - 1 ensures r[j].duration > 0.0 {
        assert r[j].duration == starts[j + 1] - starts[j];
        assert SampleIndex(j, |t|, k) < SampleIndex(j + 1, |t|, k);
      }
    }
  }

  /**
    The allocation the distributor computes: the even split, or the scenes
    over the sampled start times. Either way there is one scene per index,
    in order, contiguous up to the end of the audio, so the durations add
    up to the span from the first start to the end.
  */
  function Distribution(numScenes: int, analysis: AudioAnalysis, strategy: string): (r: seq<SceneSlot>)
    requires numScenes >= 1
    ensures |r| == numScenes
    ensures forall i :: 0 <= i < numScenes ==> r[i].sceneIndex == i
    ensures Contiguous(r, analysis.duration)
    ensures SumDurations(r) == analysis.duration - r[0].start
  {
    var r := if UsesEvenSplit(numScenes, analysis, strategy) then EvenSplit(numScenes, analysis.duration)
      else SlotsOver(SampledStarts(StrategyTimings(strategy, analysis), numScenes), analysis.duration);
    ContiguousSum(r, analysis.duration);
    r
  }

  /**
    `distribute_scenes_to_timings`: the even split for the "evenly" strategy
    or when the chosen list has fewer timestamps than scenes; otherwise scene
    `i` starts at the sampled timestamp `SampleIndex(i)` and runs to the next
    scene's start, the last one to the end of the audio.
  */
  method DistributeScenes(numScenes: int, analysis: AudioAnalysis, strategy: string) returns (result: seq<SceneSlot>)
    requires numScenes >= 1
    ensures result == Distribution(numScenes, analysis, strategy)
    ensures UsesEvenSplit(numScenes, analysis, strategy) ==> result == EvenSplit(numScenes, analysis.duration)
    ensures !UsesEvenSplit(numScenes, analysis, strategy) ==>
      result == SlotsOver(SampledStarts(StrategyTimings(strategy, analysis), numScenes), analysis.duration)
  {
    var duration := analysis.duration;
    if strategy == "evenly" {
      result := EvenSplit(numScenes, duration);
      return;
    }
    var timings := StrategyTimings(strategy, analysis);
    if |timings| < numScenes {
      result := EvenSplit(numScenes, duration);
      return;
    }
    var n := |timings|;
    var selectedIndices := seq(numScenes, i requires 0 <= i < numScenes => SampleIndex(i, n, numScenes));
    var selected := seq(numScenes, i requires 0 <= i < numScenes => timings[selectedIndices[i]]);
    assert selected == SampledStarts(timings, numScenes);
    ghost var slots := SlotsOver(selected, duration);
    result := [];
    var i := 0;
    while i < numScenes
      invariant 0 <= i <= numScenes
      invariant result == slots[..i]
    {
      var startTime := selected[i];
      var endTime := if i < numScenes - 1 then selected[i + 1] else duration;
      assert SceneSlot(i, startTime, endTime - startTime) == slots[i];
      result := result + [SceneSlot(i, startTime, endTime - startTime)];
      assert slots[..i + 1] == slots[..i] + [slots[i]];
      i := i + 1;
    }
    assert result == slots;
  }
}

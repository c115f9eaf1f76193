# shorts_art core, modelled in Dafny

shorts_art turns a painting into a vertical short video. It has four stages:

1. A vision model is asked where the interesting regions of the painting lie.
2. Each region is cut out with a zoomed crop and fitted to the 9:16 video frame.
3. A closing "museum" frame shows the whole painting above a text band.
4. The frames are chained into a video. Each frame lasts either as long as its narration text calls for, or as long as the music allocates to it, taken from beats and onsets of the audio.

This project models the arithmetic and sequencing at the heart of those stages and proves what they guarantee:

- **`utils.dfy` (`Utils`).**
  - `clamp`.
  - The aspect-ratio fit.
  - The greedy word wrapper `wrap_text`. The pixel width of a line that PIL measures is a parameter `measure`.
- **`image_processor.dfy` (`ImageProcessor`).**
  - The zoomed crop box. It is modelled per axis by the function `FitSpan`, and the imperative `CalculateCropBox` is proved equal to it.
  - The 9:16 crop of `_fit_to_aspect_ratio`.
  - The size and position of the artwork in the museum frame.
- **`audio_analyzer.dfy` (`AudioAnalyzer`).**
  - The scene timeline built from beats and onsets: merge, sort, greedy minimum-interval filter and a 0.0 lead-in.
  - The distribution of scenes over that timeline: even split, or `np.linspace` sampling.
- **`video_maker.dfy` (`VideoMaker`).**
  - The display time of a narration text.
  - The two clip plans: text-length mode and timing mode.
  - How `create_video` chooses between them.
- **`claude_analyzer.dfy` (`ClaudeAnalyzer`).**
  - The extraction of the JSON text from a model reply wrapped in Markdown code fences.
  - The resize/re-encode loop that brings an image under the 5 MB base64 limit. The JPEG encoder is a parameter `jpegSize`, which gives the encoded byte count of a width, height and quality.
- **`pytext.dfy` (`PyText`).** The Python string built-ins the code relies on: `split()`, `' '.join`, `strip()`, `str.replace`, `in`, and `split(sep)[0]` / `[1]`.
- **`wrappers.dfy`.** `Option`/`Result` and two sequence-prefix lemmas.

Python floats are modelled as exact reals.

- `int()` of a float is truncation toward zero (`Utils.Trunc`). On values known to be non-negative it is `.Floor`.
- `//` by a positive constant is Dafny's `/`.
- `round(x, 1)` is round-half-even on the exact value.

Behaviour worth knowing, which the model reproduces:

- **Cropping to 9:16 is not idempotent.** Cropping an already cropped image can cut one more pixel: a 10 x 17 image becomes 9 x 17, then 9 x 16 (`ImageProcessor.FitToAspectRatioNotIdempotent`).
- **The minimum scene interval does not hold after the prepended 0.0.** The lead-in anchor at 0.0 is added whenever the first kept anchor is later than 0.1 s. The next anchor can then be less than `min_scene_interval` after it. `AudioAnalyzer.SceneTimingsFacts` states exactly what holds.
- **Crop boxes are truncated, and inputs are not validated.** A crop box edge is truncated to a whole pixel, not rounded. There is no minimum scene duration, and a focus point outside 0..1 is not rejected.
- **Sampled durations start at the first sampled anchor.** In the sampled distribution, the durations add up to `duration - t[0]` rather than to `duration`.
- **Fence extraction follows `str.split` literally.** In `_parse_json_response`, a reply with a "```json" fence yields the text from just after the first "```json" to the next "```", stripped, or to the end when no "```" follows (`ClaudeAnalyzer.ExtractJsonBranch`). A reply with only "```" fences yields the text between the first two fences in the same way (`ClaudeAnalyzer.ExtractPlainBranch`). There is one exception, in the "```json" case. When a backtick directly follows the closing "```", a "```json" that overlaps it ends the first cut there, so the text runs one or two characters further: `"```json a````json b"` yields ``"a`"``. Either way, the text never contains a fence.

## Model

| member | source | states |
|---|---|---|
| Utils.Trunc | modules/utils.py:155-159 | Python's `int()` of a float: truncation toward zero, so the result is within one of the value and never farther from zero |
| Utils.Clamp | modules/utils.py:164-176 | `max(lo, min(hi, v))`: the value itself when it lies in range; `lo` below the range; `hi` above it; always within `[lo, hi]` when `lo <= hi`; `lo` when the bounds are crossed |
| Utils.ClampIdempotent | modules/utils.py:164-176 | clamping a clamped value changes nothing |
| Utils.CompareRatios | modules/utils.py:149-152 | comparing the two float ratios is the same as comparing the cross products of the integer sides |
| Utils.AspectRatioFit | modules/utils.py:132-161 | for a positive target the result fits inside the target and fills one side of it. A wider source keeps the target width and gets the height `tw * sh / sw` truncated. Otherwise it keeps the target height and gets the width `th * sw / sh` truncated |
| Utils.TextWordsAreWords | modules/utils.py:92-94 | after underscores become spaces, every word of `split()` is non-empty, free of whitespace and free of underscores |
| Utils.LayoutJoin | modules/utils.py:98-104 | appending a word that keeps the measured line within `max_width` preserves the wrapping state |
| Utils.LayoutBreak | modules/utils.py:104-109 | when the word does not fit a non-empty line, emitting that line preserves the wrapping invariants and passes its words on in order; the word starts the next line |
| Utils.LayoutAlone | modules/utils.py:110-113 | a single word too wide on its own is emitted as a line by itself, keeping the invariants |
| Utils.EmitLine | modules/utils.py:105-117 | emitting pending words as a line keeps every line well formed; a line of two or more words fits; every break is forced; the words stay in order |
| Utils.WrapFinish | modules/utils.py:115-119 | after the last word, the pending line completes a layout of exactly the input words |
| Utils.WrapText | modules/utils.py:71-119 | the words of the output lines, in order, are exactly the words of the text; there are no lines iff there are no words; each line is a single-space join of its words with no underscore; every line of two or more words measures at most `max_width`; every line break was forced (the next word did not fit, or the line is one over-wide word) |
| PyText.ReplaceChar | modules/utils.py:92 | `str.replace` of one character: same length, every occurrence replaced, everything else kept |
| PyText.SplitJoin | modules/utils.py:94-100 | `split()` of the single-space join of whitespace-free words gives the words back |
| PyText.JoinSnoc | modules/utils.py:99-100 | joining one more word appends a space and that word |
| PyText.Strip | modules/claude_analyzer.py:279 | `strip()` returns a contiguous piece of its input that neither starts nor ends with whitespace, and everything it removes at either end is whitespace |
| PyText.Find | modules/claude_analyzer.py:278 | `-1` iff the pattern does not occur; otherwise the first occurrence |
| PyText.BeforeFirst | modules/claude_analyzer.py:279 | `split(sep)[0]`: a prefix of the input without `sep`, ending at the first `sep` or at the end; no `sep` of the input starts inside it |
| PyText.AfterFirst | modules/claude_analyzer.py:279 | the suffix after the first occurrence of `sep` |
| PyText.SecondPiece | modules/claude_analyzer.py:279 | `split(sep)[1]` never contains `sep` |
| PyText.BeforeFirstIdempotent | modules/claude_analyzer.py:279 | cutting at the first separator twice is cutting once |
| ImageProcessor.RequestedSpan | modules/image_processor.py:299-311 | on one axis the requested crop is `extent / zoom` wide and centred at `extent * focus` |
| ImageProcessor.FitSpan | modules/image_processor.py:313-331 | after the edge shifts and clamps the span lies inside the image. It keeps its size, shifted by the same amount at both ends, when it fits. It is unchanged when already inside. It is the whole axis when it is at least as large as the image |
| ImageProcessor.ShiftIntoImage | modules/image_processor.py:313-331 | the imperative shift-then-clamp of one axis computes FitSpan |
| ImageProcessor.CropBoxOf | modules/image_processor.py:278-333 | the crop box lies inside the image and is ordered for a positive zoom. For zoom >= 1 each side is within a pixel of `extent / zoom`. For 0 < zoom <= 1 it is the whole image |
| ImageProcessor.CalculateCropBox | modules/image_processor.py:278-333 | `_calculate_crop_box` computes CropBoxOf: inside the image, left <= right and top <= bottom for a positive zoom |
| ImageProcessor.ZoomKeepsCropSize | modules/image_processor.py:299-326 | for zoom >= 1 the fitted span keeps the zoomed size and is shifted rigidly; if already inside the image it stays centred on the focus point |
| ImageProcessor.AxisFacts | modules/image_processor.py:299-333 | after truncation the box side is ordered; for zoom >= 1 it is within one pixel of `extent / zoom`; for zoom <= 1 it is the full axis |
| ImageProcessor.CropNearEdgeExample | modules/image_processor.py:314-333 | a focus at x = 0.95 with zoom 2 on a 1000 x 1000 image is shifted left: box (500, 250, 1000, 750) |
| ImageProcessor.FitToAspectRatio | modules/image_processor.py:335-358 | the 9:16 crop box lies inside the image and is ordered |
| ImageProcessor.FitWiderImage | modules/image_processor.py:349-353 | an image wider than the video ratio keeps its full height; its width becomes `height * vw / vh` truncated; the cut is split with the right side taking the odd pixel |
| ImageProcessor.FitTallerImage | modules/image_processor.py:354-358 | any other image keeps its full width; its height becomes `width * vh / vw` truncated; the cut is split with the bottom taking the odd pixel |
| ImageProcessor.FitToAspectRatioNotIdempotent | modules/image_processor.py:345-358 | cropping a 10 x 17 image gives 9 x 17; cropping that again gives 9 x 16 |
| ImageProcessor.MuseumImageSize | modules/image_processor.py:185-211 | the artwork fits inside `(video width - 200) x (video height - 550)` and fills one of the two sides |
| ImageProcessor.MuseumImagePosition | modules/image_processor.py:213-226 | the artwork is centred horizontally and above the text band vertically, floor division putting the odd pixel on the far side |
| ImageProcessor.MuseumLayoutInside | modules/image_processor.py:185-226 | the placed artwork keeps at least 100 pixels from the left and right edges and lies between the top of the frame and the text band |
| AudioAnalyzer.Insert | modules/audio_analyzer.py:167 | inserting into a strictly increasing sequence keeps it strictly increasing, with the value added |
| AudioAnalyzer.SortedSet | modules/audio_analyzer.py:167 | `sorted(set(xs))` is strictly increasing and holds exactly the values of `xs` |
| AudioAnalyzer.GreedyFilterIncreasing | modules/audio_analyzer.py:171-177 | the filter keeps a strictly increasing selection of its input |
| AudioAnalyzer.GreedyFilterSpacing | modules/audio_analyzer.py:171-177 | kept timestamps are at least `min_interval` after the starting `last_time` and after each other |
| AudioAnalyzer.GreedyFilterCoverage | modules/audio_analyzer.py:171-177 | every dropped timestamp is less than `min_interval` after the start or after a kept timestamp not later than it |
| AudioAnalyzer.GreedyFilterFacts | modules/audio_analyzer.py:171-177 | the filter's selection, spacing and coverage together |
| AudioAnalyzer.GreedyFilterStart | modules/audio_analyzer.py:172-177 | with `last_time = -min_interval` the first kept timestamp is non-negative, and is 0.0 when 0.0 is among the timestamps |
| AudioAnalyzer.FilteredFacts | modules/audio_analyzer.py:167-177 | the filtered merge of beats and onsets is a strictly increasing, non-negative, `min_interval`-spaced selection of them |
| AudioAnalyzer.PrependZeroFacts | modules/audio_analyzer.py:179-181 | putting 0.0 in front of a timeline that starts after 0.1 keeps it strictly increasing and non-negative |
| AudioAnalyzer.SceneTimingsFacts | modules/audio_analyzer.py:149-183 | the timeline is non-empty and starts within 0.1 s of zero; it is strictly increasing and non-negative; every later anchor is a beat or onset; an added 0.0 is followed by an anchor after 0.1 s; the interval holds after every beat or onset anchor |
| AudioAnalyzer.CalculateSceneTimings | modules/audio_analyzer.py:149-183 | the loop computes SceneTimings; the result is non-empty and starts within 0.1 s of zero |
| AudioAnalyzer.StrategyTimings | modules/audio_analyzer.py:217-225 | "beats" reads the beats, "onsets" the onsets, any other strategy the merged scene timeline |
| AudioAnalyzer.ContiguousSum | modules/audio_analyzer.py:241-255 | back-to-back scenes add up to the span from the first start to the end |
| AudioAnalyzer.EvenSplit | modules/audio_analyzer.py:209-215 | one scene per index, each `duration / num_scenes` long, starting at 0 and back to back up to `duration` |
| AudioAnalyzer.EvenSplitSum | modules/audio_analyzer.py:209-215 | the scenes of an even split last `duration` in total |
| AudioAnalyzer.EvenSplitExample | modules/audio_analyzer.py:209-215 | four scenes over 40 s start at 0, 10, 20, 30 and last 10 s each |
| AudioAnalyzer.SampleIndex | modules/audio_analyzer.py:238 | a `linspace` index for `k <= n` samples is a valid index into the `n` timestamps |
| AudioAnalyzer.SampleIndexFacts | modules/audio_analyzer.py:238 | `linspace(0, n-1, k, dtype=int)` starts at 0, ends at `n-1` for `k >= 2`, stays in range and is strictly increasing when `k <= n`, so no timestamp is picked twice |
| AudioAnalyzer.SampleIndexExample | modules/audio_analyzer.py:238 | five anchors sampled for three scenes give indices 0, 2, 4 |
| AudioAnalyzer.SampledStarts | modules/audio_analyzer.py:238-239 | the selected start times are the timestamps at the sampled indices, one per scene |
| AudioAnalyzer.SlotsOver | modules/audio_analyzer.py:241-255 | scene `j` starts at its chosen time and lasts until the next scene's start, the last until `duration`; the scenes are back to back |
| AudioAnalyzer.SampledSlotsFacts | modules/audio_analyzer.py:238-255 | the sampled scenes start at the first timestamp and add up to `duration - t[0]`; on an increasing timeline every scene but the last has a positive duration |
| AudioAnalyzer.Distribution | modules/audio_analyzer.py:206-255 | exactly `num_scenes` scenes with indices 0.., back to back up to `duration`, totalling `duration` minus the first start |
| AudioAnalyzer.DistributeScenes | modules/audio_analyzer.py:185-255 | the even split for "evenly" or too few timestamps, otherwise the sampled scenes, built by the loop |
| VideoMaker.RoundHalfEven | modules/video_maker.py:44 | `round` on an exact value: within 0.5 of it, the floor or the ceiling, and even on a tie |
| VideoMaker.RoundHalfEvenMonotone | modules/video_maker.py:44 | rounding preserves order |
| VideoMaker.RoundTenth | modules/video_maker.py:44 | `round(x, 1)` is a multiple of 0.1 within 0.05 of `x` |
| VideoMaker.RoundTenthMonotone | modules/video_maker.py:44 | rounding to a tenth preserves order |
| VideoMaker.LinearDurationMonotone | modules/video_maker.py:42-43 | with a non-negative time per character, more characters never mean less time |
| VideoMaker.CalculateDuration | modules/video_maker.py:32-44 | the display time is within 0.05 s of `base + chars * per_char` |
| VideoMaker.CalculateDurationMonotone | modules/video_maker.py:32-44 | a longer text is never shown for less time |
| VideoMaker.CalculateDurationExample | modules/video_maker.py:29-44 | with the defaults (1.5 s + 0.08 s per character) a 25-character text is shown for 3.5 s |
| VideoMaker.SceneDuration | modules/video_maker.py:129-135 | an image with text is shown for that text's time; one without (missing or None) for the default final-scene time of 5 s |
| VideoMaker.CreateImageClips | modules/video_maker.py:111-146 | one clip per image in file order, each for its SceneDuration; the total is the sum of the clip durations |
| VideoMaker.TimedClipsLength | modules/video_maker.py:205-213 | at most one clip per timing; one per timing iff every timing's scene has an image |
| VideoMaker.KeptTimings | modules/video_maker.py:205-209 | the timings kept by the skip test: exactly those of the input whose scene index is below the number of images |
| VideoMaker.TimedClipsKept | modules/video_maker.py:205-213 | timing mode skips exactly the timings whose scene has no image: there is one clip per kept timing, and clip `i` shows the image of the `i`-th kept timing for its duration |
| VideoMaker.TimedClipsMembers | modules/video_maker.py:205-213 | every timed clip is the image of some timing's scene, which has an image, shown for that timing's duration |
| VideoMaker.KeptAllTimings | modules/video_maker.py:205-209 | when every timing's scene has an image, no timing is skipped |
| VideoMaker.TimedClipsSum | modules/video_maker.py:205-213 | when every timing's scene has an image, the timed clips last as long as the timings in total |
| VideoMaker.TimedClipsAllScenes | modules/video_maker.py:205-213 | when every scene has an image, clip `i` shows the image of timing `i` for its duration, and the clips last as long as the timings |
| VideoMaker.CreateImageClipsWithTimings | modules/video_maker.py:185-222 | the loop builds TimedClips, skipping timings past the last image; at most one clip per timing; the total is their sum |
| VideoMaker.CreateVideoClips | modules/video_maker.py:78-83 | timing mode exactly when the timing list is given and non-empty, text-length mode otherwise |
| VideoMaker.TimedClipsOfAllocation | modules/video_maker.py:205-213 | with one allocated scene per image, timing mode shows every image once, in order, for its allocated time |
| VideoMaker.TimedDurationOfAllocation | modules/video_maker.py:203-213 | with the same allocation the video lasts from the first scene's start to the end of the audio |
| ClaudeAnalyzer.JsonFenceHasFence | modules/claude_analyzer.py:278-281 | a reply with a ```` ```json ```` fence also contains a plain fence, so the branches are ordered correctly |
| ClaudeAnalyzer.ExtractJsonText | modules/claude_analyzer.py:277-281 | for a reply with a fence, the extracted text is stripped and contains no fence; a reply without a fence passes through unchanged (its exact content is stated by ExtractJsonBranch and ExtractPlainBranch) |
| ClaudeAnalyzer.FencedText | modules/claude_analyzer.py:279 | the piece after the first opening fence, up to the next fence, stripped, holds no fence |
| ClaudeAnalyzer.AfterOpeningFence | modules/claude_analyzer.py:279 | when the text before the first fence has no backtick, `split(fence)[1]` and the rest start right after it |
| ClaudeAnalyzer.UpToFence | modules/claude_analyzer.py:281 | a backtick-free body followed by a fence is cut exactly at the fence |
| ClaudeAnalyzer.JsonCutAfterBody | modules/claude_analyzer.py:279 | cutting at the next ```` ```json ```` keeps the whole body and stops either at the end or at the closing fence |
| ClaudeAnalyzer.UpToClosingFence | modules/claude_analyzer.py:279 | in the json branch the text up to the closing fence is exactly the body |
| ClaudeAnalyzer.ExtractFencedJson | modules/claude_analyzer.py:278-279 | a reply `pre ```json body ``` post` yields `body` stripped |
| ClaudeAnalyzer.BacktickPositions | modules/claude_analyzer.py:280-281 | in `pre ``` body ``` post` the backticks are exactly those of the two fences |
| ClaudeAnalyzer.NoJsonFenceAt | modules/claude_analyzer.py:278 | a plain-fenced reply has no ```` ```json ```` at any given position unless the body or the rest starts with `json` |
| ClaudeAnalyzer.NoJsonFence | modules/claude_analyzer.py:278-280 | such a reply takes the plain-fence branch |
| ClaudeAnalyzer.ExtractPlainFenced | modules/claude_analyzer.py:280-281 | a reply `pre ``` body ``` post` yields `body` stripped |
| ClaudeAnalyzer.JsonPieceCut | modules/claude_analyzer.py:279 | `split("```json")[0].split("```")[0]` of the text after the opening fence is a prefix of it: all of it without a fence, else ending at the first fence or up to two characters after it, and exactly at it unless a backtick follows |
| ClaudeAnalyzer.JsonBranchText | modules/claude_analyzer.py:278-279 | a reply with a ```` ```json ```` fence is parsed from the stripped piece cut from the text after its first ```` ```json ```` |
| ClaudeAnalyzer.PlainBranchText | modules/claude_analyzer.py:280-281 | a reply with only plain fences is parsed from the stripped piece cut from the text after its first fence |
| ClaudeAnalyzer.JsonCutInReply | modules/claude_analyzer.py:279 | the same cut located in the reply: from after the first ```` ```json ```` to the next fence, to the end when there is none, at most two characters past it, and exactly at it unless a backtick follows |
| ClaudeAnalyzer.ExtractJsonBranch | modules/claude_analyzer.py:278-279 | for any reply with a ```` ```json ```` fence the parsed text is the reply from after the first ```` ```json ```` up to the next fence, stripped, or up to the end when no fence follows; only a backtick right after that fence can move the end one or two characters further |
| ClaudeAnalyzer.ExtractPlainBranch | modules/claude_analyzer.py:280-281 | for any reply with plain fences but no ```` ```json ```` the parsed text is the reply from after the first fence up to the second, stripped, or up to the end when there is no second fence |
| ClaudeAnalyzer.Base64Length | modules/claude_analyzer.py:91-92 | the base64 length of `n` bytes lies between `4n/3` and `4n/3 + 4` |
| ClaudeAnalyzer.Base64LimitInBytes | modules/claude_analyzer.py:81-94 | the 5,000,000-character base64 limit admits exactly the JPEGs of at most 3,750,000 bytes |
| ClaudeAnalyzer.ScaledSide | modules/claude_analyzer.py:71-74 | `int(a * (m / b))` with `a <= b` and `m < b` is at most `a` and at most `m` |
| ClaudeAnalyzer.ScaledSideValue | modules/claude_analyzer.py:71-74 | that side is the whole number part of `a * (m / b)` |
| ClaudeAnalyzer.InitialSize | modules/claude_analyzer.py:62-77 | quality starts at 85. An image within `max_dimension` keeps its size. A larger one is scaled so that both sides are at most `max_dimension`, and the wider side becomes exactly `max_dimension` (the height on a tie). The other side's exact value is stated by InitialSizeScaled |
| ClaudeAnalyzer.InitialSizeScaled | modules/claude_analyzer.py:68-74 | for an oversized image the side scaled in proportion is the whole number part of that side times `max_dimension` over the other side: the height when the width is larger, the width otherwise |
| ClaudeAnalyzer.Shrink | modules/claude_analyzer.py:105-106 | `int(side * 0.85)` never grows and strictly shrinks a positive side |
| ClaudeAnalyzer.SearchStopsAtFit | modules/claude_analyzer.py:94-98 | an attempt whose encoding fits the limit is returned as is |
| ClaudeAnalyzer.SearchStep | modules/claude_analyzer.py:100-114 | after a miss the next attempt lowers quality by 5 down to 40, then shrinks the image and restarts at 85; it fails when a side falls below `min_dimension` |
| ClaudeAnalyzer.SearchFacts | modules/claude_analyzer.py:83-114 | a success fits the limit with a quality in 40..85 and is no larger than the start, and is either the start size or at least `min_dimension` per side; a failure has a side below `min_dimension` |
| ClaudeAnalyzer.ResizeOutcome | modules/claude_analyzer.py:42-114 | how the call ends: a failure at the first size when the first resize truncates a side to 0, as the image library refuses it, and otherwise the search from that size; a success fits the 5 MB base64 limit with a valid quality and is no larger than the original image; a failure has a side below `min_dimension` |
| ClaudeAnalyzer.ResizeImageUnderLimit | modules/claude_analyzer.py:42-114 | the method computes ResizeOutcome |
| ClaudeAnalyzer.SearchLoop | modules/claude_analyzer.py:83-114 | the encoding loop returns exactly what Search from its start attempt prescribes |

## Left out

- File and image I/O are not modelled. This covers PIL (opening, converting, resizing, cropping, drawing), librosa's beat and onset detection, MoviePy's clips, concatenation and audio muxing, and `print`. Only the arithmetic that decides sizes, positions, boxes, times and orderings is modelled.
- The Claude API call and `json.loads` are not modelled. The model stops at the text that would be parsed.
- The JPEG encoder is an opaque parameter (`jpegSize`). Only the encoded size matters to the loop.
- The exception raised by the resize loop is modelled as a `Failure` carrying the attempt.
- The try/except in `create_video` that returns `False` on any error is not modelled, nor are the steps after the clip plan (concatenation, audio, saving, cleanup).
- Floating-point rounding is not modelled. Float arithmetic is exact real arithmetic, so float effects are not captured, for example a `linspace` index that lands just below an integer and is truncated down.
- `int(side * 0.85)` is written as `side * 85 / 100`.
- ClaudeAnalyzer.ResizeImageUnderLimit: requires positive image sides, because an opened image file has no zero side.
- ClaudeAnalyzer.ResizeImageUnderLimit: requires `min_dimension >= 1`. With 0, the source stops with the image library's error once a 15% shrink truncates a side to 0 (the resize at `modules/claude_analyzer.py:107`). The model does not represent that error path.
- ClaudeAnalyzer.ResizeImageUnderLimit: with `min_dimension >= 1`, a shrink to a 0 side raises in the source at the resize, before the check at line 110. The model reports it as a `Failure` from that check instead. Both are the raised exception, modelled as `Failure`.
- ClaudeAnalyzer.ResizeImageUnderLimit: when the first resize truncates a side to 0 (a 10000 x 1 image with a maximum of 100), the source raises the image library's error at `modules/claude_analyzer.py:75`. The model returns `Failure` with that first size instead.
- ClaudeAnalyzer.ResizeImageUnderLimit: the oversize pre-scaling is stated through the InitialSize function, which the method calls, rather than repeated inline.
- ImageProcessor.CalculateCropBox: requires positive image sides and a non-zero zoom. The source only needs the zoom to be non-zero.
- ImageProcessor.CalculateCropBox: the source runs its four edge checks in the order left, top, right, bottom. The model runs them per axis. The axes share no variables, so the result is the same.
- Utils.AspectRatioFit: requires a positive source width. The source also accepts a width of 0.
- ImageProcessor.MuseumImageSize: requires a positive image width for the same reason.
- ImageProcessor.FitToAspectRatio: the final resize to the video size is a PIL call and is not modelled.
- ImageProcessor.FitToAspectRatio: requires a positive height. A zoomed crop can be 0 pixels high, for example `CropBoxOf(1000, 1000, 0.5, 0.5005, 4000.0)` has equal top and bottom. The source then raises ZeroDivisionError at `modules/image_processor.py:347` inside `generate_zoomed_images`. That error path is not modelled.
- AudioAnalyzer.DistributeScenes: requires at least one scene. With zero scenes the source divides by zero for "evenly" and returns an empty list otherwise.
- AudioAnalyzer.DistributeScenes: scene indices are naturals.
- VideoMaker.CreateImageClips: a `texts` list that is `None` is modelled as the empty list, which the source treats the same way.
- VideoMaker.CreateImageClipsWithTimings: its `texts` argument is only printed, so it is not a parameter.
- VideoMaker.CreateImageClipsWithTimings: the `start_time` of a timing is only printed as well.
- `calculate_duration` reads `base_duration` and `duration_per_char` from the configuration. The model takes them as a `Config` value, with the source's defaults 1.5 and 0.08.

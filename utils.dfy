/**
  Shared helpers of modules/utils.py: `clamp`, `calculate_aspect_ratio_fit`
  and the greedy word wrapper `wrap_text`. Floats are exact reals here; the
  pixel width of a rendered line (Pillow's `textbbox` with a given font and
  stroke) is an arbitrary function `measure` supplied by the caller.
*/
module Utils {
  import opened PyText
  import opened Sequences

  /** Python's `int(r)`: truncation toward zero. */
  function Trunc(r: real): (t: int)
    ensures r >= 0.0 ==> 0 <= t && t as real <= r < t as real + 1.0
    ensures r < 0.0 ==> t <= 0 && r <= t as real && t as real - 1.0 < r
  {
    if r >= 0.0 then r.Floor else -((-r).Floor)
  }

  // ---------------------------------------------------------------------
  // clamp
  // ---------------------------------------------------------------------

  /** `max(lo, min(hi, v))`. */
  function Clamp(v: real, lo: real, hi: real): (r: real)
    ensures lo <= hi ==> lo <= r <= hi
    ensures lo <= v <= hi ==> r == v
    ensures v < lo ==> r == lo
    ensures lo <= hi && hi < v ==> r == hi
    ensures hi < lo ==> r == lo
  {
    var m := if hi <= v then hi else v;
    if lo >= m then lo else m
  }

  /** Clamping twice into the same range is clamping once. */
  lemma ClampIdempotent(v: real, lo: real, hi: real)
    ensures Clamp(Clamp(v, lo, hi), lo, hi) == Clamp(v, lo, hi)
  {
  }

  // ---------------------------------------------------------------------
  // calculate_aspect_ratio_fit
  // ---------------------------------------------------------------------

  datatype Size = Size(width: int, height: int)

  /**
    The size that keeps the source's width/height ratio and fills the
    target along one side: the target width when the source is relatively
    wider, else the target height; the other side is truncated.
  */
  function AspectRatioFit(sourceWidth: int, sourceHeight: int, targetWidth: int, targetHeight: int): (r: Size)
    requires sourceWidth > 0 && sourceHeight > 0 && targetHeight != 0
    ensures targetWidth > 0 && targetHeight > 0 ==>
      && 0 <= r.width <= targetWidth && 0 <= r.height <= targetHeight
      && (r.width == targetWidth || r.height == targetHeight)
    ensures targetWidth > 0 && targetHeight > 0 && sourceWidth * targetHeight > targetWidth * sourceHeight ==>
      && r.width == targetWidth
      && r.height as real <= (targetWidth * sourceHeight) as real / sourceWidth as real < r.height as real + 1.0
    ensures targetWidth > 0 && targetHeight > 0 && sourceWidth * targetHeight <= targetWidth * sourceHeight ==>
      && r.height == targetHeight
      && r.width as real <= (targetHeight * sourceWidth) as real / sourceHeight as real < r.width as real + 1.0
  {
    var sourceRatio := sourceWidth as real / sourceHeight as real;
    var targetRatio := targetWidth as real / targetHeight as real;
    RatioFacts(sourceWidth, sourceHeight, targetWidth, targetHeight);
    if sourceRatio > targetRatio then
      Size(targetWidth, Trunc(targetWidth as real / sourceRatio))
    else
      Size(Trunc(targetHeight as real * sourceRatio), targetHeight)
  }

  /** The real-number facts behind AspectRatioFit, with every side positive. */
  lemma RatioFacts(sw: int, sh: int, tw: int, th: int)
    requires sw > 0 && sh > 0 && th != 0
    ensures tw as real / (sw as real / sh as real) == (tw * sh) as real / sw as real
    ensures th as real * (sw as real / sh as real) == (th * sw) as real / sh as real
    ensures tw > 0 && th > 0 ==> ((sw as real / sh as real > tw as real / th as real) <==> sw * th > tw * sh)
    ensures tw > 0 && th > 0 && sw * th > tw * sh ==> (tw * sh) as real / sw as real < th as real
    ensures tw > 0 && th > 0 && sw * th <= tw * sh ==> (th * sw) as real / sh as real <= tw as real
  {
    DivideByRatio(sw, sh, tw);
    MultiplyByRatio(sw, sh, th);
    if tw > 0 && th > 0 {
      CompareRatios(sw, sh, tw, th);
      ScaledBelow(tw * sh, sw, th);
      ScaledBelow(th * sw, sh, tw);
    }
  }

  lemma DivideByRatio(sw: int, sh: int, tw: int)
    requires sw > 0 && sh > 0
    ensures tw as real / (sw as real / sh as real) == (tw * sh) as real / sw as real
  {
    assert (tw * sh) as real == tw as real * sh as real;
  }

  lemma MultiplyByRatio(sw: int, sh: int, th: int)
    requires sw > 0 && sh > 0
    ensures th as real * (sw as real / sh as real) == (th * sw) as real / sh as real
  {
    assert (th * sw) as real == th as real * sw as real;
  }

  lemma CompareRatios(sw: int, sh: int, tw: int, th: int)
    requires sw >= 0 && sh > 0 && tw > 0 && th > 0
    ensures (sw as real / sh as real > tw as real / th as real) <==> sw * th > tw * sh
  {
    var a, b, c, d := sw as real, sh as real, tw as real, th as real;
    assert a / b - c / d == (a * d - c * b) / (b * d);
    assert (sw * th) as real == a * d && (tw * sh) as real == c * b;
  }

  /** `p / q < r` exactly when `p < r * q`, for a positive `q`. */
  lemma ScaledBelow(p: int, q: int, r: int)
    requires q > 0
    ensures q * r > p ==> p as real / q as real < r as real
    ensures q * r >= p ==> p as real / q as real <= r as real
  {
    assert (q * r) as real == q as real * r as real;
    assert (q * r) as real / q as real == r as real;
  }

  // ---------------------------------------------------------------------
  // wrap_text
  // ---------------------------------------------------------------------

  /** `text.replace('_', ' ').split()`: the words `wrap_text` lays out. */
  function TextWords(text: string): seq<string> {
    SplitWords(ReplaceChar(text, '_', ' '))
  }

  /** The words of `lines`, each split on white space, concatenated in order. */
  function WordsOfLines(lines: seq<string>): seq<string> {
    if lines == [] then [] else WordsOfLines(lines[..|lines| - 1]) + SplitWords(lines[|lines| - 1])
  }

  /** The words `wrap_text` lays out are words and contain no underscore. */
  lemma TextWordsAreWords(text: string)
    ensures forall w :: w in TextWords(text) ==> IsWord(w) && '_' !in w
  {
    var t := ReplaceChar(text, '_', ' ');
    SplitWordsTokens(t);
    assert '_' !in t;
  }

  /** The characters of a join are spaces or characters of the joined words. */
  lemma {:induction false} JoinChars(ws: seq<string>, c: char)
    requires c in Join(ws)
    ensures c == ' ' || exists j :: 0 <= j < |ws| && c in ws[j]
    decreases |ws|
  {
    if |ws| > 1 {
      if c !in ws[0] && c != ' ' {
        assert c in Join(ws[1..]);
        JoinChars(ws[1..], c);
        var j :| 0 <= j < |ws[1..]| && c in ws[1..][j];
        assert c in ws[j + 1];
      }
    }
  }

  /** A single-space join of words without underscores has no underscore. */
  lemma JoinNoUnderscore(ws: seq<string>)
    requires forall j :: 0 <= j < |ws| ==> '_' !in ws[j]
    ensures '_' !in Join(ws)
  {
    if '_' in Join(ws) {
      JoinChars(ws, '_');
    }
  }

  /** Whether the break after line `line` was forced: either the next word did not fit, or `line` is a single over-wide word. */
  predicate BreakForced(line: string, next: string, measure: string -> int, maxWidth: int) {
    || measure(line + " " + next) > maxWidth
    || (|SplitWords(line)| == 1 && measure(line) > maxWidth)
  }

  /** Every line is a non-empty single-space join of its words and has no underscore. */
  predicate WellFormedLines(lines: seq<string>) {
    forall i :: 0 <= i < |lines| ==>
      && SplitWords(lines[i]) != []
      && lines[i] == Join(SplitWords(lines[i]))
      && '_' !in lines[i]
  }

  /** Every line of two or more words measures at most `maxWidth`. */
  predicate MultiWordLinesFit(lines: seq<string>, measure: string -> int, maxWidth: int) {
    forall i :: 0 <= i < |lines| && |SplitWords(lines[i])| >= 2 ==> measure(lines[i]) <= maxWidth
  }

  /** Every break between consecutive lines was forced. */
  predicate BreaksForced(lines: seq<string>, measure: string -> int, maxWidth: int) {
    forall i :: 0 <= i < |lines| - 1 && SplitWords(lines[i + 1]) != [] ==>
      BreakForced(lines[i], SplitWords(lines[i + 1])[0], measure, maxWidth)
  }

  /** The break after the last emitted line is justified by the words still pending. */
  predicate PendingBreak(lines: seq<string>, current: seq<string>, measure: string -> int, maxWidth: int) {
    |lines| > 0 ==>
      || (|SplitWords(lines[|lines| - 1])| == 1 && measure(lines[|lines| - 1]) > maxWidth)
      || (current != [] && measure(lines[|lines| - 1] + " " + current[0]) > maxWidth)
  }

  /** Emitting the pending words `ws` as a line keeps the lines well formed and passes the words on in order. */
  lemma EmitLineWords(lines: seq<string>, ws: seq<string>)
    requires WellFormedLines(lines)
    requires ws != [] && forall j :: 0 <= j < |ws| ==> IsWord(ws[j]) && '_' !in ws[j]
    ensures WellFormedLines(lines + [Join(ws)])
    ensures WordsOfLines(lines + [Join(ws)]) == WordsOfLines(lines) + ws
  {
    SplitJoin(ws);
    JoinNoUnderscore(ws);
    assert (lines + [Join(ws)])[..|lines|] == lines;
  }

  /** Emitting the pending words `ws` as a line keeps the width and break invariants. */
  lemma EmitLine(lines: seq<string>, ws: seq<string>, next: seq<string>, measure: string -> int, maxWidth: int)
    requires WellFormedLines(lines) && MultiWordLinesFit(lines, measure, maxWidth)
    requires BreaksForced(lines, measure, maxWidth) && PendingBreak(lines, ws, measure, maxWidth)
    requires ws != [] && forall j :: 0 <= j < |ws| ==> IsWord(ws[j]) && '_' !in ws[j]
    requires |ws| >= 2 ==> measure(Join(ws)) <= maxWidth
    ensures var lines' := lines + [Join(ws)];
      && WellFormedLines(lines') && MultiWordLinesFit(lines', measure, maxWidth)
      && BreaksForced(lines', measure, maxWidth)
      && WordsOfLines(lines') == WordsOfLines(lines) + ws
      && ((next != [] && measure(Join(ws + [next[0]])) > maxWidth) || (|ws| == 1 && measure(Join(ws)) > maxWidth)
          ==> PendingBreak(lines', next, measure, maxWidth))
  {
    EmitLineWords(lines, ws);
    SplitJoin(ws);
    if next != [] {
      JoinSnoc(ws, next[0]);
    }
  }

  /** The state of `wrap_text` between two words: emitted `lines` and the pending `current` words. */
  predicate Layout(lines: seq<string>, current: seq<string>, measure: string -> int, maxWidth: int) {
    && (forall j :: 0 <= j < |current| ==> IsWord(current[j]) && '_' !in current[j])
    && (|current| >= 2 ==> measure(Join(current)) <= maxWidth)
    && WellFormedLines(lines) && MultiWordLinesFit(lines, measure, maxWidth)
    && BreaksForced(lines, measure, maxWidth) && PendingBreak(lines, current, measure, maxWidth)
  }

  /** A word that fits joins the current line. */
  lemma LayoutJoin(lines: seq<string>, current: seq<string>, word: string, measure: string -> int, maxWidth: int)
    requires Layout(lines, current, measure, maxWidth)
    requires IsWord(word) && '_' !in word
    requires measure(Join(current + [word])) <= maxWidth
    ensures Layout(lines, current + [word], measure, maxWidth)
  {
    var c := current + [word];
    assert forall j :: 0 <= j < |c| ==> IsWord(c[j]) && '_' !in c[j];
    assert current != [] ==> c[0] == current[0];
  }

  /** A word that does not fit ends the current line and starts the next one. */
  lemma LayoutBreak(lines: seq<string>, current: seq<string>, word: string, measure: string -> int, maxWidth: int)
    requires Layout(lines, current, measure, maxWidth)
    requires IsWord(word) && '_' !in word
    requires current != [] && measure(Join(current + [word])) > maxWidth
    ensures Layout(lines + [Join(current)], [word], measure, maxWidth)
    ensures WordsOfLines(lines + [Join(current)]) == WordsOfLines(lines) + current
  {
    EmitLine(lines, current, [word], measure, maxWidth);
    assert [word][0] == word && current + [[word][0]] == current + [word];
  }

  /** A word that does not fit on an empty line is a line of its own. */
  lemma LayoutAlone(lines: seq<string>, word: string, measure: string -> int, maxWidth: int)
    requires Layout(lines, [], measure, maxWidth)
    requires IsWord(word) && '_' !in word
    requires measure(Join([word])) > maxWidth
    ensures Layout(lines + [word], [], measure, maxWidth)
    ensures WordsOfLines(lines + [word]) == WordsOfLines(lines) + [word]
  {
    assert Join([word]) == word;
    EmitLine(lines, [word], [], measure, maxWidth);
  }

  /** The `wrap_text` loop state after the first `k` words: they are the words of the emitted and pending lines, laid out. */
  predicate WrapInv(words: seq<string>, k: int, lines: seq<string>, current: seq<string>, measure: string -> int, maxWidth: int) {
    && 0 <= k <= |words|
    && WordsOfLines(lines) + current == words[..k]
    && Layout(lines, current, measure, maxWidth)
  }

  /** The next word fits: it joins the pending words. */
  lemma WrapJoin(words: seq<string>, k: int, lines: seq<string>, current: seq<string>, measure: string -> int, maxWidth: int)
    requires WrapInv(words, k, lines, current, measure, maxWidth) && k < |words|
    requires IsWord(words[k]) && '_' !in words[k]
    requires measure(Join(current + [words[k]])) <= maxWidth
    ensures WrapInv(words, k + 1, lines, current + [words[k]], measure, maxWidth)
  {
    LayoutJoin(lines, current, words[k], measure, maxWidth);
    PrefixStep(words, k);
  }

  /** The next word does not fit after the pending words: they are emitted and the word is pending alone. */
  lemma WrapBreak(words: seq<string>, k: int, lines: seq<string>, current: seq<string>, measure: string -> int, maxWidth: int)
    requires WrapInv(words, k, lines, current, measure, maxWidth) && k < |words|
    requires IsWord(words[k]) && '_' !in words[k]
    requires current != [] && measure(Join(current + [words[k]])) > maxWidth
    ensures WrapInv(words, k + 1, lines + [Join(current)], [words[k]], measure, maxWidth)
  {
    LayoutBreak(lines, current, words[k], measure, maxWidth);
    PrefixStep(words, k);
  }

  /** The next word does not fit on an empty line: it is emitted as a line of its own. */
  lemma WrapAlone(words: seq<string>, k: int, lines: seq<string>, measure: string -> int, maxWidth: int)
    requires WrapInv(words, k, lines, [], measure, maxWidth) && k < |words|
    requires IsWord(words[k]) && '_' !in words[k]
    requires measure(Join([words[k]])) > maxWidth
    ensures WrapInv(words, k + 1, lines + [words[k]], [], measure, maxWidth)
  {
    LayoutAlone(lines, words[k], measure, maxWidth);
    PrefixStep(words, k);
  }

  /** The lines after the loop: the pending words, if any, form the last line. */
  function FinalLines(lines: seq<string>, current: seq<string>): seq<string> {
    if current != [] then lines + [Join(current)] else lines
  }

  /** Emitting the pending words after the last word gives a complete layout of all the words. */
  lemma WrapFinish(words: seq<string>, lines: seq<string>, current: seq<string>, measure: string -> int, maxWidth: int)
    requires WrapInv(words, |words|, lines, current, measure, maxWidth)
    ensures var final := FinalLines(lines, current);
      && WordsOfLines(final) == words
      && (final == [] <==> words == [])
      && WellFormedLines(final)
      && MultiWordLinesFit(final, measure, maxWidth)
      && BreaksForced(final, measure, maxWidth)
  {
    PrefixAll(words);
    if current != [] {
      EmitLine(lines, current, [], measure, maxWidth);
    }
    var final := FinalLines(lines, current);
    if final != [] {
      assert SplitWords(final[|final| - 1]) != [];
    }
  }

  /**
    Greedy word wrapping: words are appended to the current line while the
    measured line stays within `maxWidth`; when a word does not fit, the
    line without it is emitted and the word starts the next one, and a word
    that does not fit on its own is emitted on a line by itself.
  */
  method WrapText(text: string, measure: string -> int, maxWidth: int) returns (lines: seq<string>)
    ensures WordsOfLines(lines) == TextWords(text)
    ensures lines == [] <==> TextWords(text) == []
    ensures WellFormedLines(lines)
    ensures MultiWordLinesFit(lines, measure, maxWidth)
    ensures BreaksForced(lines, measure, maxWidth)
  {
    var words := SplitWords(ReplaceChar(text, '_', ' '));
    TextWordsAreWords(text);
    lines := [];
    var current: seq<string> := [];
    var k := 0;
    while k < |words|
      invariant WrapInv(words, k, lines, current, measure, maxWidth)
    {
      var word := words[k];
      assert word in words;
      var candidate := current + [word];
      if measure(Join(candidate)) > maxWidth {
        if |candidate| > 1 {
          WrapBreak(words, k, lines, current, measure, maxWidth);
          lines := lines + [Join(current)];
          current := [word];
        } else {
          assert current == [];
          WrapAlone(words, k, lines, measure, maxWidth);
          lines := lines + [word];
          current := [];
        }
      } else {
        WrapJoin(words, k, lines, current, measure, maxWidth);
        current := candidate;
      }
      k := k + 1;
    }
    WrapFinish(words, lines, current, measure, maxWidth);
    if current != [] {
      lines := lines + [Join(current)];
    }
  }
}

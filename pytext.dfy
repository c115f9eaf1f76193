/**
  The Python string built-ins the modelled code relies on: `str.isspace`,
  `str.split()` with no separator, `' '.join`, `str.strip()`, `str.replace`
  of one character, and the first-occurrence search behind `in` and
  `str.split(sep)`. Strings are sequences of Unicode scalar values.
*/
module PyText {

  /** The characters for which Python's `str.isspace()` is true. */
  predicate IsSpace(c: char) {
    || c == ' ' || c == '\t' || c == '\n' || c == '\r'
    || c == '\U{B}' || c == '\U{C}'
    || ('\U{1C}' <= c <= '\U{1F}')
    || c == '\U{85}' || c == '\U{A0}' || c == '\U{1680}'
    || ('\U{2000}' <= c <= '\U{200A}')
    || c == '\U{2028}' || c == '\U{2029}' || c == '\U{202F}'
    || c == '\U{205F}' || c == '\U{3000}'
  }

  /** A token that `str.split()` can produce: non-empty, without white space. */
  predicate IsWord(w: string) {
    w != [] && forall i :: 0 <= i < |w| ==> !IsSpace(w[i])
  }

  // ---------------------------------------------------------------------
  // str.split() with no separator
  // ---------------------------------------------------------------------

  /** Splitting `s` when the characters `cur` of a pending token precede it. */
  function SplitFrom(s: string, cur: string): seq<string>
    decreases |s|
  {
    if s == [] then (if cur == [] then [] else [cur])
    else if IsSpace(s[0]) then
      (if cur == [] then SplitFrom(s[1..], []) else [cur] + SplitFrom(s[1..], []))
    else SplitFrom(s[1..], cur + [s[0]])
  }

  /** `s.split()`: the maximal runs of non-white-space characters, in order. */
  function SplitWords(s: string): seq<string> {
    SplitFrom(s, [])
  }

  /** `' '.join(ws)`. */
  function Join(ws: seq<string>): string {
    if |ws| == 0 then []
    else if |ws| == 1 then ws[0]
    else ws[0] + " " + Join(ws[1..])
  }

  lemma {:induction false} JoinSnoc(ws: seq<string>, w: string)
    requires ws != []
    ensures Join(ws + [w]) == Join(ws) + " " + w
    decreases |ws|
  {
    if |ws| == 1 {
      assert ws + [w] == [ws[0], w];
    } else {
      assert (ws + [w])[1..] == ws[1..] + [w];
      JoinSnoc(ws[1..], w);
    }
  }

  /** Every token of `SplitFrom(s, cur)` is a word made of characters of `cur` and `s`. */
  lemma {:induction false} SplitFromTokens(s: string, cur: string)
    requires forall i :: 0 <= i < |cur| ==> !IsSpace(cur[i])
    ensures forall w :: w in SplitFrom(s, cur) ==> IsWord(w)
    ensures forall w, c :: w in SplitFrom(s, cur) && c in w ==> c in cur || c in s
    decreases |s|
  {
    if s == [] {
    } else if IsSpace(s[0]) {
      SplitFromTokens(s[1..], []);
      forall w, c | w in SplitFrom(s, cur) && c in w ensures c in cur || c in s {
        if w != cur {
          assert w in SplitFrom(s[1..], []);
          assert c in s[1..];
        }
      }
    } else {
      SplitFromTokens(s[1..], cur + [s[0]]);
      forall w, c | w in SplitFrom(s, cur) && c in w ensures c in cur || c in s {
        assert c in cur + [s[0]] || c in s[1..];
      }
    }
  }

  /** The tokens of `s.split()` are words whose characters all come from `s`. */
  lemma SplitWordsTokens(s: string)
    ensures forall w :: w in SplitWords(s) ==> IsWord(w)
    ensures forall w, c :: w in SplitWords(s) && c in w ==> c in s
  {
    SplitFromTokens(s, []);
  }

  /** A word followed by more text extends the pending token. */
  lemma {:induction false} SplitFromWord(w: string, rest: string, cur: string)
    requires forall i :: 0 <= i < |w| ==> !IsSpace(w[i])
    ensures SplitFrom(w + rest, cur) == SplitFrom(rest, cur + w)
    decreases |w|
  {
    if w != [] {
      var s := w + rest;
      assert s[0] == w[0] && !IsSpace(s[0]);
      assert s[1..] == w[1..] + rest;
      assert SplitFrom(s, cur) == SplitFrom(w[1..] + rest, cur + [w[0]]);
      assert cur + [w[0]] + w[1..] == cur + w;
      SplitFromWord(w[1..], rest, cur + [w[0]]);
    } else {
      assert w + rest == rest && cur + w == cur;
    }
  }

  lemma {:induction false} SplitFromJoin(ws: seq<string>, cur: string)
    requires ws != []
    requires forall i :: 0 <= i < |ws| ==> IsWord(ws[i])
    ensures SplitFrom(Join(ws), cur) == [cur + ws[0]] + ws[1..]
    decreases |ws|
  {
    if |ws| == 1 {
      SplitFromWord(ws[0], [], cur);
      assert ws[0] + [] == ws[0];
      assert cur + ws[0] != [];
    } else {
      var j := Join(ws[1..]);
      assert Join(ws) == ws[0] + (" " + j);
      SplitFromWord(ws[0], " " + j, cur);
      assert (" " + j)[1..] == j;
      SplitFromJoin(ws[1..], []);
      assert [] + ws[1..][0] == ws[1];
      assert [ws[1]] + ws[1..][1..] == ws[1..];
    }
  }

  /** Splitting a single-space join of words gives the words back. */
  lemma SplitJoin(ws: seq<string>)
    requires forall i :: 0 <= i < |ws| ==> IsWord(ws[i])
    ensures SplitWords(Join(ws)) == ws
  {
    if ws != [] {
      SplitFromJoin(ws, []);
      assert [] + ws[0] == ws[0];
    }
  }

  // ---------------------------------------------------------------------
  // str.replace(old, new) for one-character old and new
  // ---------------------------------------------------------------------

  function ReplaceChar(s: string, from: char, to: char): (r: string)
    ensures |r| == |s|
    ensures forall i :: 0 <= i < |s| ==> r[i] == if s[i] == from then to else s[i]
  {
    if s == [] then [] else [if s[0] == from then to else s[0]] + ReplaceChar(s[1..], from, to)
  }

  // ---------------------------------------------------------------------
  // str.strip() with no argument
  // ---------------------------------------------------------------------

  /** `s.lstrip()`: the suffix of `s` left after its leading white space. */
  function LStrip(s: string): (r: string)
    ensures |r| <= |s| && r == s[|s| - |r|..]
    ensures r == [] || !IsSpace(r[0])
    ensures forall i :: 0 <= i < |s| - |r| ==> IsSpace(s[i])
  {
    if s != [] && IsSpace(s[0]) then LStrip(s[1..]) else s
  }

  /** `s.rstrip()`: the prefix of `s` left after its trailing white space. */
  function RStrip(s: string): (r: string)
    ensures |r| <= |s| && r == s[..|r|]
    ensures r == [] || !IsSpace(r[|r| - 1])
    ensures forall i :: |r| <= i < |s| ==> IsSpace(s[i])
  {
    if s != [] && IsSpace(s[|s| - 1]) then RStrip(s[..|s| - 1]) else s
  }

  /** The number of leading white-space characters `str.strip()` removes. */
  function StripStart(s: string): (a: nat)
    ensures a <= |s|
  {
    |s| - |LStrip(s)|
  }

  /** Neither end of `s` is white space. */
  predicate Trimmed(s: string) {
    s == [] || (!IsSpace(s[0]) && !IsSpace(s[|s| - 1]))
  }

  /** `s.strip()`: `s` without white space at either end, an infix of `s`. */
  function Strip(s: string): (r: string)
    ensures Trimmed(r)
    ensures StripStart(s) + |r| <= |s| && r == s[StripStart(s)..StripStart(s) + |r|]
    ensures forall i :: 0 <= i < StripStart(s) ==> IsSpace(s[i])
    ensures forall i :: StripStart(s) + |r| <= i < |s| ==> IsSpace(s[i])
  {
    RStrip(LStrip(s))
  }

  // ---------------------------------------------------------------------
  // first occurrence of a separator
  // ---------------------------------------------------------------------

  /** `p` occurs in `s` starting at index `i`. */
  predicate OccursAt(s: string, p: string, i: int) {
    0 <= i && i + |p| <= |s| && s[i..i + |p|] == p
  }

  /** `p in s`, Python's substring test. */
  predicate Contains(s: string, p: string) {
    exists i | 0 <= i <= |s| :: OccursAt(s, p, i)
  }

  /** `s.find(p, from)`: the first occurrence at or after `from`, or -1. */
  function FindFrom(s: string, p: string, from: nat): (r: int)
    ensures r == -1 || (from <= r && OccursAt(s, p, r))
    ensures forall i :: from <= i && (r == -1 || i < r) ==> !OccursAt(s, p, i)
    decreases |s| - from
  {
    if from + |p| > |s| then -1
    else if s[from..from + |p|] == p then from
    else FindFrom(s, p, from + 1)
  }

  /** `s.find(p)`: the index of the first occurrence of `p` in `s`, or -1. */
  function Find(s: string, p: string): (r: int)
    ensures r == -1 <==> !Contains(s, p)
    ensures r != -1 ==> OccursAt(s, p, r) && forall i :: 0 <= i < r ==> !OccursAt(s, p, i)
  {
    FindFrom(s, p, 0)
  }

  /** `s.split(sep)[0]`: the text before the first occurrence of `sep`, or all of `s`. */
  function BeforeFirst(s: string, sep: string): (r: string)
    requires sep != []
    ensures |r| <= |s| && r == s[..|r|]
    ensures !Contains(r, sep)
    ensures r == s || OccursAt(s, sep, |r|)
    ensures forall i :: 0 <= i < |r| ==> !OccursAt(s, sep, i)
  {
    var k := Find(s, sep);
    if k == -1 then s
    else
      var r := s[..k];
      forall i | OccursAt(r, sep, i) ensures OccursAt(s, sep, i) && i < k {
        assert s[i..i + |sep|] == r[i..i + |sep|];
      }
      r
  }

  /** The text after the first occurrence of `sep`. */
  function AfterFirst(s: string, sep: string): (r: string)
    requires Contains(s, sep)
    ensures |r| <= |s| && r == s[|s| - |r|..]
    ensures OccursAt(s, sep, |s| - |r| - |sep|)
    ensures forall i :: 0 <= i < |s| - |r| - |sep| ==> !OccursAt(s, sep, i)
  {
    s[Find(s, sep) + |sep|..]
  }

  /** `s.split(sep)[1]`: the text between the first and second occurrences of `sep`. */
  function SecondPiece(s: string, sep: string): (r: string)
    requires sep != [] && Contains(s, sep)
    ensures !Contains(r, sep)
  {
    BeforeFirst(AfterFirst(s, sep), sep)
  }

  /** An infix of a string without `p` has no `p` either. */
  lemma InfixNotContains(t: string, p: string, a: int, b: int)
    requires 0 <= a <= b <= |t|
    requires !Contains(t, p)
    ensures !Contains(t[a..b], p)
  {
    forall i | OccursAt(t[a..b], p, i) ensures OccursAt(t, p, a + i) {
      var u := t[a + i..a + i + |p|];
      forall j | 0 <= j < |p| ensures u[j] == p[j] {
        assert t[a..b][i..i + |p|][j] == p[j];
      }
    }
    assert forall i :: OccursAt(t[a..b], p, i) ==> 0 <= a + i <= |t| && OccursAt(t, p, a + i);
  }

  /** Cutting at the first `sep` twice is the same as cutting once. */
  lemma BeforeFirstIdempotent(s: string, sep: string)
    requires sep != []
    ensures BeforeFirst(BeforeFirst(s, sep), sep) == BeforeFirst(s, sep)
  {
  }

  /** When `sep` first occurs at `k`, or nowhere before the end `k == |s|`, `s.split(sep)[0]` is `s[..k]`. */
  lemma BeforeFirstAt(s: string, sep: string, k: int)
    requires sep != [] && 0 <= k <= |s|
    requires k == |s| || OccursAt(s, sep, k)
    requires forall i :: 0 <= i < k ==> !OccursAt(s, sep, i)
    ensures BeforeFirst(s, sep) == s[..k]
  {
  }

  /** When `sep` first occurs at `k`, the text after its first occurrence starts right after `k`. */
  lemma AfterFirstAt(s: string, sep: string, k: int)
    requires OccursAt(s, sep, k)
    requires forall i :: 0 <= i < k ==> !OccursAt(s, sep, i)
    ensures Contains(s, sep) && AfterFirst(s, sep) == s[k + |sep|..]
  {
    assert Contains(s, sep);
    var j := Find(s, sep);
    assert j == k;
  }

  /** Stripping a text without `p` leaves a text without `p`. */
  lemma StripNotContains(t: string, p: string)
    requires !Contains(t, p)
    ensures !Contains(Strip(t), p)
  {
    InfixNotContains(t, p, StripStart(t), StripStart(t) + |Strip(t)|);
  }

  /** An occurrence of `p` at `i` fixes the characters of `s` from `i` on. */
  lemma OccursAtChar(s: string, p: string, i: int, j: int)
    requires OccursAt(s, p, i) && 0 <= j < |p|
    ensures s[i + j] == p[j]
  {
    assert s[i..i + |p|][j] == s[i + j];
  }

  /** `s.split(sep)[0]` ends at the index `s.find(sep)` reports, or is all of `s`. */
  lemma BeforeFirstFind(s: string, sep: string)
    requires sep != []
    ensures Find(s, sep) == -1 ==> BeforeFirst(s, sep) == s
    ensures Find(s, sep) != -1 ==> 0 <= Find(s, sep) <= |s| && BeforeFirst(s, sep) == s[..Find(s, sep)]
  {
  }

  /** A prefix of the suffix from `k` is a slice of `s`. */
  lemma SuffixPrefix(s: string, k: int, j: int)
    requires 0 <= k <= j <= |s|
    ensures s[k..][..j - k] == s[k..j]
  {
  }

  /** The same, for a text `t` known as the prefix of length `n == j - k` of the suffix from `k`. */
  lemma SuffixPrefixIs(s: string, k: int, j: int, n: int, t: string)
    requires 0 <= k <= j <= |s| && n == j - k
    requires t == s[k..][..n]
    ensures t == s[k..j]
  {
  }

  /** Index `i` of the suffix from `k` is index `j == k + i` of `s`. */
  lemma SuffixChar(s: string, k: int, i: int, j: int)
    requires 0 <= k && 0 <= i && j == k + i && j < |s|
    ensures s[k..][i] == s[j]
  {
  }

  /**
    Cutting a prefix `s[..n]` at its first `sep` cuts at the first `sep` of
    `s` when that one ends within the prefix, and keeps the whole prefix
    otherwise.
  */
  lemma BeforeFirstOfPrefix(s: string, sep: string, n: int)
    requires sep != [] && 0 <= n <= |s|
    ensures var p := Find(s, sep);
      && (p != -1 && p + |sep| <= n ==> BeforeFirst(s[..n], sep) == s[..p])
      && (p == -1 || p + |sep| > n ==> BeforeFirst(s[..n], sep) == s[..n])
  {
    var b := s[..n];
    var p := Find(s, sep);
    forall i | 0 <= i && i + |sep| <= n ensures OccursAt(b, sep, i) <==> OccursAt(s, sep, i) {
      assert b[i..i + |sep|] == s[i..i + |sep|];
    }
    if p != -1 && p + |sep| <= n {
      BeforeFirstAt(b, sep, p);
      assert b[..p] == s[..p];
    } else {
      BeforeFirstAt(b, sep, n);
      assert b[..n] == b;
    }
  }

  /** Searching the suffix from `k` finds what `s.find(p, k)` finds, shifted by `k`. */
  lemma FindInSuffix(s: string, p: string, k: nat)
    requires k <= |s|
    ensures var f := FindFrom(s, p, k);
      var g := Find(s[k..], p);
      && (f == -1 <==> g == -1)
      && (f != -1 ==> g == f - k)
  {
    var f := FindFrom(s, p, k);
    var g := Find(s[k..], p);
    if f != -1 {
      OccursInSuffix(s, p, k, f - k);
    }
    if g != -1 {
      OccursInSuffix(s, p, k, g);
    }
  }

  /** `p` occurs at `i` in the suffix from `k` exactly when it occurs at `k + i` in `s`. */
  lemma OccursInSuffix(s: string, p: string, k: int, i: int)
    requires 0 <= k <= |s| && 0 <= i
    ensures OccursAt(s[k..], p, i) <==> OccursAt(s, p, k + i)
  {
    if i + |p| <= |s| - k {
      assert s[k..][i..i + |p|] == s[k + i..k + i + |p|];
    }
  }

  /** A separator starting with `c` occurs nowhere before the first `c`. */
  lemma NoOccurrenceBefore(s: string, sep: string, k: int)
    requires sep != [] && 0 <= k <= |s|
    requires forall i :: 0 <= i < k ==> s[i] != sep[0]
    ensures forall i :: 0 <= i < k ==> !OccursAt(s, sep, i)
  {
    forall i | 0 <= i < k ensures !OccursAt(s, sep, i) {
      assert i + |sep| <= |s| ==> s[i..i + |sep|][0] == s[i];
    }
  }
}

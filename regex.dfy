/**
 * The two regular expressions the screens split text with, and `String.prototype.split` with a
 * regular expression whose only capturing group is the whole match:
 *   gap markers  /(\[\d+\](?: \([^)]+\))?)/g   (practice screen)
 *   bold spans   /(\*\*.*?\*\*)/g               (learn page)
 * `split` scans left to right, tries a match at each position, and returns the text between
 * matches interleaved with the matches themselves.
 */
module Regex {
  import opened Types
  import opened JsText

  /** A gap marker found at the start of a string: its number, its optional hint, its length. */
  datatype MarkerMatch = MarkerMatch(id: string, hint: Option<string>, length: nat)

  /** The end of the run of digits that starts at `i`. */
  function DigitsEnd(t: string, i: nat): (j: nat)
    requires i <= |t|
    ensures i <= j <= |t| && AllDigits(t[i..j])
    ensures j == |t| || !IsDigit(t[j])
    decreases |t| - i
  {
    if i < |t| && IsDigit(t[i]) then DigitsEnd(t, i + 1) else i
  }

  /** The end of the run of characters other than `)` that starts at `i` (`[^)]*`). */
  function NonCloseEnd(t: string, i: nat): (j: nat)
    requires i <= |t|
    ensures i <= j <= |t| && ')' !in t[i..j]
    ensures j == |t| || t[j] == ')'
    decreases |t| - i
  {
    if i < |t| && t[i] != ')' then NonCloseEnd(t, i + 1) else i
  }

  /**
   * `\[\d+\](?: \([^)]+\))?` anchored at the start of `t`. The digit run and the hint are greedy and
   * neither can give back characters usefully, so the match is decided without backtracking.
   */
  function MarkerAt(t: string): (m: Option<MarkerMatch>)
    ensures m.Some? ==> 3 <= m.value.length <= |t|
  {
    if |t| == 0 || t[0] != '[' then None
    else
      var j := DigitsEnd(t, 1);
      if j == 1 || j == |t| || t[j] != ']' then None
      else if j + 2 < |t| && t[j + 1] == ' ' && t[j + 2] == '('
              && j + 3 < NonCloseEnd(t, j + 3) < |t| then
        Some(MarkerMatch(t[1..j], Some(t[j + 3..NonCloseEnd(t, j + 3)]), NonCloseEnd(t, j + 3) + 1))
      else
        Some(MarkerMatch(t[1..j], None, j + 1))
  }

  /** The text of a marker: `[id]`, or `[id] (hint)`. */
  function MarkerText(id: string, hint: Option<string>): string {
    "[" + id + "]" + (match hint case None => "" case Some(h) => " (" + h + ")")
  }

  /** What a marker's number and hint can be. */
  predicate WellFormedMarker(id: string, hint: Option<string>) {
    |id| > 0 && AllDigits(id) && (hint.Some? ==> |hint.value| > 0 && ')' !in hint.value)
  }

  /** A marker match spells out its number and hint. */
  lemma MarkerAtSpells(t: string)
    requires MarkerAt(t).Some?
    ensures var m := MarkerAt(t).value;
      WellFormedMarker(m.id, m.hint) && t[..m.length] == MarkerText(m.id, m.hint)
  {
    var m := MarkerAt(t).value;
    var j := DigitsEnd(t, 1);
    assert m.id == t[1..j];
    match m.hint
    case None =>
      assert t[..m.length] == "[" + t[1..j] + "]";
    case Some(h) =>
      var k := NonCloseEnd(t, j + 3);
      assert t[..m.length] == "[" + t[1..j] + "]" + " (" + t[j + 3..k] + ")";
  }

  lemma {:induction false} DigitsEndOfDigits(t: string, i: nat, j: nat)
    requires i <= j < |t| && AllDigits(t[i..j]) && !IsDigit(t[j])
    ensures DigitsEnd(t, i) == j
    decreases j - i
  {
    if i < j {
      assert IsDigit(t[i..j][0]);
      assert t[i + 1..j] == t[i..j][1..];
      DigitsEndOfDigits(t, i + 1, j);
    }
  }

  lemma {:induction false} NonCloseEndOf(t: string, i: nat, j: nat)
    requires i <= j < |t| && ')' !in t[i..j] && t[j] == ')'
    ensures NonCloseEnd(t, i) == j
    decreases j - i
  {
    if i < j {
      assert t[i..j][0] == t[i];
      assert t[i + 1..j] == t[i..j][1..];
      NonCloseEndOf(t, i + 1, j);
    }
  }

  /** Reading a marker's text back gives its number and hint: what the screen's `match` recovers. */
  lemma MarkerRoundTrip(id: string, hint: Option<string>)
    requires WellFormedMarker(id, hint)
    ensures MarkerAt(MarkerText(id, hint)) == Some(MarkerMatch(id, hint, |MarkerText(id, hint)|))
  {
    var t := MarkerText(id, hint);
    var j := |id| + 1;
    assert t[1..j] == id;
    DigitsEndOfDigits(t, 1, j);
    match hint
    case None =>
    case Some(h) =>
      var k := j + 3 + |h|;
      assert t[j + 3..k] == h;
      NonCloseEndOf(t, j + 3, k);
  }

  /** A marker match never needs the characters after it. */
  lemma MarkerAtSelfContained(t: string)
    requires MarkerAt(t).Some?
    ensures MarkerAt(t[..MarkerAt(t).value.length]) == MarkerAt(t)
  {
    var m := MarkerAt(t).value;
    MarkerAtSpells(t);
    MarkerRoundTrip(m.id, m.hint);
  }

  lemma {:induction false} DigitsEndPrefix(t: string, u: string, i: nat)
    requires i <= |t| && DigitsEnd(t, i) < |t|
    ensures DigitsEnd(t + u, i) == DigitsEnd(t, i)
    decreases |t| - i
  {
    if i < |t| && IsDigit(t[i]) {
      DigitsEndPrefix(t, u, i + 1);
    }
  }

  lemma {:induction false} NonCloseEndPrefix(t: string, u: string, i: nat)
    requires i <= |t| && NonCloseEnd(t, i) < |t|
    ensures NonCloseEnd(t + u, i) == NonCloseEnd(t, i)
    decreases |t| - i
  {
    if i < |t| && t[i] != ')' {
      NonCloseEndPrefix(t, u, i + 1);
    }
  }

  /** A marker found in a string is still found once more text follows it. */
  lemma MarkerAtPrefixStable(t: string, u: string)
    requires MarkerAt(t).Some?
    ensures MarkerAt(t + u).Some?
  {
    DigitsEndPrefix(t, u, 1);
  }

  /** A marker with a hint ends at its `)`, so text after it never changes the match. */
  lemma MarkerAtHintedPrefix(t: string, u: string)
    requires MarkerAt(t).Some? && MarkerAt(t).value.hint.Some?
    ensures MarkerAt(t + u) == MarkerAt(t)
  {
    var j := DigitsEnd(t, 1);
    DigitsEndPrefix(t, u, 1);
    NonCloseEndPrefix(t, u, j + 3);
    var k := NonCloseEnd(t, j + 3);
    assert (t + u)[1..j] == t[1..j];
    assert (t + u)[j + 3..k] == t[j + 3..k];
  }

  /** The lazy `.*?\*\*` from position `i`: the end of the first `**` reached before a line terminator. */
  function CloseEnd(t: string, i: nat): (n: Option<nat>)
    requires i <= |t|
    ensures n.Some? ==> i + 2 <= n.value <= |t|
    decreases |t| - i
  {
    if i + 1 < |t| && t[i] == '*' && t[i + 1] == '*' then Some(i + 2)
    else if i < |t| && !IsLineTerminator(t[i]) then CloseEnd(t, i + 1)
    else None
  }

  /** `\*\*.*?\*\*` anchored at the start of `t`: the length of the bold span. */
  function BoldAt(t: string): (n: Option<nat>)
    ensures n.Some? ==> 4 <= n.value <= |t|
  {
    if |t| >= 2 && t[0] == '*' && t[1] == '*' then CloseEnd(t, 2) else None
  }

  lemma {:induction false} CloseEndSpells(t: string, i: nat)
    requires i <= |t| && CloseEnd(t, i).Some?
    ensures t[CloseEnd(t, i).value - 2..CloseEnd(t, i).value] == "**"
    decreases |t| - i
  {
    if !(i + 1 < |t| && t[i] == '*' && t[i + 1] == '*') {
      CloseEndSpells(t, i + 1);
    }
  }

  /** A `**` starts at position `x` of `t`. */
  predicate PairAt(t: string, x: nat) {
    x + 1 < |t| && t[x] == '*' && t[x + 1] == '*'
  }

  /** No line terminator lies between positions `i` and `x` of `t`. */
  predicate OnOneLine(t: string, i: nat, x: nat) {
    x <= |t| && forall y :: i <= y < x ==> !IsLineTerminator(t[y])
  }

  /** The lazy `.*?` stops at the first `**`: nothing before the closing pair is a line terminator or a `**`. */
  lemma {:induction false} CloseEndFirst(t: string, i: nat)
    requires i <= |t| && CloseEnd(t, i).Some?
    ensures OnOneLine(t, i, CloseEnd(t, i).value - 2)
    ensures forall x :: i <= x < CloseEnd(t, i).value - 2 ==> !PairAt(t, x)
    decreases |t| - i
  {
    if !PairAt(t, i) {
      CloseEndFirst(t, i + 1);
    }
  }

  /** A `**` reached from `i` without crossing a line terminator closes the span. */
  lemma {:induction false} CloseEndFound(t: string, i: nat, x: nat)
    requires i <= x && PairAt(t, x) && OnOneLine(t, i, x)
    ensures CloseEnd(t, i).Some?
    decreases x - i
  {
    if i < x && !PairAt(t, i) {
      CloseEndFound(t, i + 1, x);
    }
  }

  lemma {:induction false} CloseEndPrefix(t: string, u: string, i: nat)
    requires i <= |t| && CloseEnd(t, i).Some?
    ensures CloseEnd(t + u, i) == CloseEnd(t, i)
    decreases |t| - i
  {
    if !(i + 1 < |t| && t[i] == '*' && t[i + 1] == '*') {
      CloseEndPrefix(t, u, i + 1);
    }
  }

  lemma {:induction false} CloseEndTruncate(t: string, i: nat)
    requires i <= |t| && CloseEnd(t, i).Some?
    ensures CloseEnd(t[..CloseEnd(t, i).value], i) == CloseEnd(t, i)
    decreases |t| - i
  {
    var n := CloseEnd(t, i).value;
    var w := t[..n];
    if !(i + 1 < |t| && t[i] == '*' && t[i + 1] == '*') {
      CloseEndTruncate(t, i + 1);
      assert CloseEnd(t, i + 1).value == n;
      assert i + 2 < n;
      assert w[i] == t[i] && w[i + 1] == t[i + 1];
      assert w[..n] == w;
      assert t[..n][..n] == t[..n];
    }
  }

  /** Bold spans start and end with `**`. */
  lemma BoldAtSpells(t: string)
    requires BoldAt(t).Some?
    ensures StartsWith(t[..BoldAt(t).value], "**") && EndsWith(t[..BoldAt(t).value], "**")
  {
    var n := BoldAt(t).value;
    CloseEndSpells(t, 2);
    assert t[..n][..2] == t[..2];
    assert t[..n][n - 2..] == t[n - 2..n];
  }

  /**
   * `\*\*.*?\*\*` is lazy: a bold span opens with `**` and runs, on one line, to the first `**`
   * after it and no further; and it exists whenever such a closing `**` exists.
   */
  lemma BoldAtLazy(t: string)
    ensures BoldAt(t).Some? ==> OnOneLine(t, 2, BoldAt(t).value - 2)
    ensures BoldAt(t).Some? ==> forall x :: 2 <= x < BoldAt(t).value - 2 ==> !PairAt(t, x)
    ensures forall x :: 2 <= x && PairAt(t, 0) && PairAt(t, x) && OnOneLine(t, 2, x) ==> BoldAt(t).Some?
  {
    if BoldAt(t).Some? {
      CloseEndFirst(t, 2);
    }
    forall x | 2 <= x && PairAt(t, 0) && PairAt(t, x) && OnOneLine(t, 2, x) ensures BoldAt(t).Some? {
      CloseEndFound(t, 2, x);
    }
  }

  /** The patterns the application splits text with. */
  datatype Pattern = GapMarker | BoldSpan

  /** The length of the match of `p` at the start of `t`, if any. */
  function MatchLength(p: Pattern, t: string): (n: Option<nat>)
    ensures n.Some? ==> 0 < n.value <= |t|
  {
    match p
    case GapMarker => (match MarkerAt(t) case None => None case Some(m) => Some(m.length))
    case BoldSpan => BoldAt(t)
  }

  lemma MatchPrefixStable(p: Pattern, t: string, u: string)
    requires MatchLength(p, t).Some?
    ensures MatchLength(p, t + u).Some?
  {
    match p
    case GapMarker => MarkerAtPrefixStable(t, u);
    case BoldSpan =>
      assert (t + u)[..2] == t[..2];
      CloseEndPrefix(t, u, 2);
  }

  lemma MatchSelfContained(p: Pattern, t: string)
    requires MatchLength(p, t).Some?
    ensures MatchLength(p, t[..MatchLength(p, t).value]) == MatchLength(p, t)
  {
    match p
    case GapMarker => MarkerAtSelfContained(t);
    case BoldSpan =>
      var n := BoldAt(t).value;
      CloseEndTruncate(t, 2);
      assert t[..n][0] == t[0] && t[..n][1] == t[1];
  }

  /** `p` matches nowhere inside `t`. */
  predicate NoMatchIn(p: Pattern, t: string) {
    forall k {:trigger MatchLength(p, t[k..])} :: 0 <= k < |t| ==> MatchLength(p, t[k..]).None?
  }

  /** The shape of a split: text, match, text, ..., text. */
  predicate Alternates(p: Pattern, parts: seq<string>) {
    && |parts| % 2 == 1
    && (forall i :: 0 <= i < |parts| && i % 2 == 1 ==> MatchLength(p, parts[i]) == Some(|parts[i]|))
    && (forall i :: 0 <= i < |parts| && i % 2 == 0 ==> NoMatchIn(p, parts[i]))
  }

  /** The character every match of a pattern starts with. */
  function Opener(p: Pattern): char {
    match p
    case GapMarker => '['
    case BoldSpan => '*'
  }

  /** No match starts at a character other than the pattern's opener. */
  lemma NoMatchWithoutOpener(p: Pattern, t: string)
    requires t == [] || t[0] != Opener(p)
    ensures MatchLength(p, t).None?
  {
  }

  // The split loop, over any matcher that behaves like a regular expression anchored at the start.

  /** The matcher of a pattern: the length of the match at the start of a text, if any. */
  function MatcherOf(p: Pattern): (m: string -> Option<nat>)
    ensures Sound(m)
  {
    t => MatchLength(p, t)
  }

  /** A match is non-empty and lies inside the text. */
  ghost predicate Sound(m: string -> Option<nat>) {
    forall t :: m(t).Some? ==> 0 < m(t).value <= |t|
  }

  /** Every match starts with `c`. */
  ghost predicate OpensWith(m: string -> Option<nat>, c: char) {
    forall t :: m(t).Some? ==> |t| > 0 && t[0] == c
  }

  /**
   * A text matches when a prefix of it does (a match survives text appended after it), and a
   * match survives cutting the text at its end.
   */
  ghost predicate Stable(m: string -> Option<nat>) {
    && (forall t, k {:trigger m(t[..k])} :: 0 <= k <= |t| && m(t[..k]).Some? ==> m(t).Some?)
    && (forall t, n {:trigger m(t[..n])} :: 0 <= n <= |t| && m(t) == Some(n) ==> m(t[..n]) == Some(n))
  }

  /** Every match of a pattern starts with its opener. */
  lemma MatcherOfOpens(p: Pattern)
    ensures OpensWith(MatcherOf(p), Opener(p))
  {
    forall t | MatchLength(p, t).Some? ensures |t| > 0 && t[0] == Opener(p) {
      if t == [] || t[0] != Opener(p) {
        NoMatchWithoutOpener(p, t);
      }
    }
  }

  /** Both patterns' matchers are stable. */
  lemma MatcherOfStable(p: Pattern)
    ensures Stable(MatcherOf(p))
  {
    forall t, k | 0 <= k <= |t| && MatchLength(p, t[..k]).Some? ensures MatchLength(p, t).Some? {
      assert t == t[..k] + t[k..];
      MatchPrefixStable(p, t[..k], t[k..]);
    }
    forall t, n | 0 <= n <= |t| && MatchLength(p, t) == Some(n) ensures MatchLength(p, t[..n]) == Some(n) {
      MatchSelfContained(p, t);
    }
  }

  /**
   * The split loop: `s[start..q]` is the text gathered since the last match and `q` the position
   * tried next.
   */
  function SplitFrom(m: string -> Option<nat>, s: string, start: nat, q: nat): seq<string>
    requires Sound(m) && start <= q <= |s|
    decreases |s| - q
  {
    if q == |s| then [s[start..]]
    else
      match m(s[q..])
      case None => SplitFrom(m, s, start, q + 1)
      case Some(n) => [s[start..q], s[q..q + n]] + SplitFrom(m, s, q + n, q + n)
  }

  /** `s.split(re)` where `re` captures its whole match. */
  function Split(p: Pattern, s: string): seq<string> {
    SplitFrom(MatcherOf(p), s, 0, 0)
  }

  function Concat(parts: seq<string>): string {
    if parts == [] then [] else parts[0] + Concat(parts[1..])
  }

  lemma {:induction false} ConcatAppend(a: seq<string>, b: seq<string>)
    ensures Concat(a + b) == Concat(a) + Concat(b)
  {
    if a == [] {
      assert a + b == b;
    } else {
      assert (a + b)[1..] == a[1..] + b;
      ConcatAppend(a[1..], b);
    }
  }

  /** Three adjacent slices make one. */
  lemma SliceThree(s: string, a: nat, b: nat, c: nat)
    requires a <= b <= c <= |s|
    ensures s[a..b] + s[b..c] + s[c..] == s[a..]
  {
  }

  lemma ConcatPair(x: string, y: string, rest: seq<string>)
    ensures Concat([x, y] + rest) == x + y + Concat(rest)
  {
    assert ([x, y] + rest)[1..] == [y] + rest;
    assert ([y] + rest)[1..] == rest;
  }

  /** The parts gathered around one match concatenate back to the text from `start` on. */
  lemma LosslessAtMatch(s: string, start: nat, q: nat, e: nat, parts: seq<string>, rest: seq<string>)
    requires start <= q <= e <= |s|
    requires parts == [s[start..q], s[q..e]] + rest
    requires Concat(rest) == s[e..]
    ensures Concat(parts) == s[start..]
  {
    ConcatPair(s[start..q], s[q..e], rest);
    SliceThree(s, start, q, e);
  }

  /** The parts concatenate to `text`. */
  ghost predicate ConcatsTo(parts: seq<string>, text: string) {
    Concat(parts) == text
  }

  /** One turn of the split loop at a match loses nothing when the rest of the loop loses nothing. */
  lemma LosslessStep(m: string -> Option<nat>, s: string, start: nat, q: nat, n: nat)
    requires Sound(m) && start <= q < |s| && m(s[q..]) == Some(n)
    requires ConcatsTo(SplitFrom(m, s, q + n, q + n), s[q + n..])
    ensures ConcatsTo(SplitFrom(m, s, start, q), s[start..])
  {
    var e := q + n;
    SplitStepAtMatch(m, s, start, q, n);
    LosslessAtMatch(s, start, q, e, SplitFrom(m, s, start, q), SplitFrom(m, s, e, e));
  }

  /** The split loop passes over a position where no match starts. */
  lemma SkipStep(m: string -> Option<nat>, s: string, start: nat, q: nat)
    requires Sound(m) && start <= q < |s| && m(s[q..]).None?
    ensures SplitFrom(m, s, start, q) == SplitFrom(m, s, start, q + 1)
  {
  }

  /** At the end of the text the split loop yields the gathered text alone. */
  lemma LosslessAtEnd(m: string -> Option<nat>, s: string, start: nat)
    requires Sound(m) && start <= |s|
    ensures ConcatsTo(SplitFrom(m, s, start, |s|), s[start..])
  {
    assert SplitFrom(m, s, start, |s|) == [s[start..]];
    assert Concat([s[start..]]) == s[start..] + Concat([]);
  }

  lemma {:induction false} SplitFromLossless(m: string -> Option<nat>, s: string, start: nat, q: nat)
    requires Sound(m) && start <= q <= |s|
    ensures ConcatsTo(SplitFrom(m, s, start, q), s[start..])
    decreases |s| - q
  {
    if q == |s| {
      LosslessAtEnd(m, s, start);
    } else {
      match m(s[q..])
      case None =>
        SplitFromLossless(m, s, start, q + 1);
        SkipStep(m, s, start, q);
      case Some(n) =>
        SplitFromLossless(m, s, q + n, q + n);
        LosslessStep(m, s, start, q, n);
    }
  }

  /** Splitting loses nothing: the parts concatenate back to the input. */
  lemma SplitLossless(p: Pattern, s: string)
    ensures Concat(Split(p, s)) == s
  {
    SplitFromLossless(MatcherOf(p), s, 0, 0);
  }

  /** `m` matches nowhere inside `t`. */
  ghost predicate NoMatchBy(m: string -> Option<nat>, t: string) {
    forall k :: 0 <= k < |t| ==> m(t[k..]).None?
  }

  ghost predicate AlternatesBy(m: string -> Option<nat>, parts: seq<string>) {
    && |parts| % 2 == 1
    && (forall i :: 0 <= i < |parts| && i % 2 == 1 ==> m(parts[i]) == Some(|parts[i]|))
    && (forall i :: 0 <= i < |parts| && i % 2 == 0 ==> NoMatchBy(m, parts[i]))
  }

  lemma AlternatesCons(m: string -> Option<nat>, text: string, hit: string, rest: seq<string>)
    requires NoMatchBy(m, text) && m(hit) == Some(|hit|) && AlternatesBy(m, rest)
    ensures AlternatesBy(m, [text, hit] + rest)
  {
    var parts := [text, hit] + rest;
    forall i | 0 <= i < |parts|
      ensures i % 2 == 1 ==> m(parts[i]) == Some(|parts[i]|)
      ensures i % 2 == 0 ==> NoMatchBy(m, parts[i])
    {
      if i >= 2 { assert parts[i] == rest[i - 2]; }
    }
  }

  /** Text gathered at positions where no match starts holds no match anywhere. */
  lemma GatheredTextHasNoMatch(m: string -> Option<nat>, s: string, start: nat, q: nat)
    requires Stable(m) && start <= q <= |s|
    requires forall i :: start <= i < q ==> m(s[i..]).None?
    ensures NoMatchBy(m, s[start..q])
  {
    forall k | 0 <= k < q - start ensures m(s[start..q][k..]).None? {
      assert s[start + k..][..q - start - k] == s[start..q][k..];
    }
  }

  /** One turn of the split loop at a match keeps the parts alternating. */
  lemma AlternatesStep(m: string -> Option<nat>, s: string, start: nat, q: nat, n: nat)
    requires Sound(m) && Stable(m) && start <= q < |s| && m(s[q..]) == Some(n)
    requires forall i :: start <= i < q ==> m(s[i..]).None?
    requires AlternatesBy(m, SplitFrom(m, s, q + n, q + n))
    ensures AlternatesBy(m, SplitFrom(m, s, start, q))
  {
    SplitStepAtMatch(m, s, start, q, n);
    GatheredTextHasNoMatch(m, s, start, q);
    assert s[q..][..n] == s[q..q + n];
    AlternatesCons(m, s[start..q], s[q..q + n], SplitFrom(m, s, q + n, q + n));
  }

  /** At the end of the text the gathered text, free of matches, is the last part. */
  lemma AlternatesAtEnd(m: string -> Option<nat>, s: string, start: nat)
    requires Sound(m) && Stable(m) && start <= |s|
    requires forall i :: start <= i < |s| ==> m(s[i..]).None?
    ensures AlternatesBy(m, SplitFrom(m, s, start, |s|))
  {
    GatheredTextHasNoMatch(m, s, start, |s|);
    assert s[start..|s|] == s[start..];
    assert SplitFrom(m, s, start, |s|) == [s[start..]];
  }

  lemma {:induction false} SplitFromAlternates(m: string -> Option<nat>, s: string, start: nat, q: nat)
    requires Sound(m) && Stable(m) && start <= q <= |s|
    requires forall i :: start <= i < q ==> m(s[i..]).None?
    ensures AlternatesBy(m, SplitFrom(m, s, start, q))
    decreases |s| - q
  {
    if q == |s| {
      AlternatesAtEnd(m, s, start);
    } else {
      match m(s[q..])
      case None =>
        SplitFromAlternates(m, s, start, q + 1);
        SkipStep(m, s, start, q);
      case Some(n) =>
        SplitFromAlternates(m, s, q + n, q + n);
        AlternatesStep(m, s, start, q, n);
    }
  }

  /** Split parts alternate between match-free text (even positions) and whole matches (odd). */
  lemma SplitAlternates(p: Pattern, s: string)
    ensures Alternates(p, Split(p, s))
  {
    var m := MatcherOf(p);
    MatcherOfStable(p);
    SplitFromAlternates(m, s, 0, 0);
    var parts := Split(p, s);
    forall i | 0 <= i < |parts| && i % 2 == 0 ensures NoMatchIn(p, parts[i]) {
      assert NoMatchBy(m, parts[i]);
      forall k | 0 <= k < |parts[i]| ensures MatchLength(p, parts[i][k..]).None? {
        assert m(parts[i][k..]).None?;
      }
    }
    forall i | 0 <= i < |parts| && i % 2 == 1 ensures MatchLength(p, parts[i]) == Some(|parts[i]|) {
      assert m(parts[i]) == Some(|parts[i]|);
    }
  }

  /** Every odd part is the match found at its own place in the text: the part followed by the rest. */
  ghost predicate MatchesInPlace(m: string -> Option<nat>, parts: seq<string>) {
    forall i :: 0 <= i < |parts| && i % 2 == 1 ==> m(parts[i] + Concat(parts[i + 1..])) == Some(|parts[i]|)
  }

  lemma InPlaceCons(m: string -> Option<nat>, text: string, hit: string, rest: seq<string>)
    requires m(hit + Concat(rest)) == Some(|hit|) && MatchesInPlace(m, rest)
    ensures MatchesInPlace(m, [text, hit] + rest)
  {
    var parts := [text, hit] + rest;
    forall i | 0 <= i < |parts| && i % 2 == 1
      ensures m(parts[i] + Concat(parts[i + 1..])) == Some(|parts[i]|)
    {
      if i == 1 {
        assert parts[2..] == rest;
      } else {
        assert parts[i] == rest[i - 2] && parts[i + 1..] == rest[i - 1..];
      }
    }
  }

  /** One turn of the split loop at a match keeps every hit in place. */
  lemma InPlaceStep(m: string -> Option<nat>, s: string, start: nat, q: nat, n: nat)
    requires Sound(m) && start <= q < |s| && m(s[q..]) == Some(n)
    requires MatchesInPlace(m, SplitFrom(m, s, q + n, q + n))
    ensures MatchesInPlace(m, SplitFrom(m, s, start, q))
  {
    var rest := SplitFrom(m, s, q + n, q + n);
    assert MatchesInPlace(m, [s[start..q], s[q..q + n]] + rest) by {
      assert s[q..q + n] + Concat(rest) == s[q..] by {
        SplitFromLossless(m, s, q + n, q + n);
        assert s[q..q + n] + s[q + n..] == s[q..];
      }
      InPlaceCons(m, s[start..q], s[q..q + n], rest);
    }
    SplitStepAtMatch(m, s, start, q, n);
  }

  lemma {:induction false} SplitFromInPlace(m: string -> Option<nat>, s: string, start: nat, q: nat)
    requires Sound(m) && start <= q <= |s|
    ensures MatchesInPlace(m, SplitFrom(m, s, start, q))
    decreases |s| - q
  {
    if q == |s| {
      assert SplitFrom(m, s, start, q) == [s[start..]];
    } else {
      match m(s[q..])
      case None =>
        SplitFromInPlace(m, s, start, q + 1);
        SkipStep(m, s, start, q);
      case Some(n) =>
        SplitFromInPlace(m, s, q + n, q + n);
        InPlaceStep(m, s, start, q, n);
    }
  }

  /**
   * Each whole match among the parts is the match the pattern finds where that part starts in the
   * text, so a greedy optional hint is never cut short by the split.
   */
  lemma SplitMatchesInPlace(p: Pattern, s: string)
    ensures var parts := Split(p, s);
      forall i :: 0 <= i < |parts| && i % 2 == 1 ==>
        MatchLength(p, parts[i] + Concat(parts[i + 1..])) == Some(|parts[i]|)
  {
    var m := MatcherOf(p);
    SplitFromInPlace(m, s, 0, 0);
    var parts := Split(p, s);
    forall i | 0 <= i < |parts| && i % 2 == 1
      ensures MatchLength(p, parts[i] + Concat(parts[i + 1..])) == Some(|parts[i]|)
    {
      assert m(parts[i] + Concat(parts[i + 1..])) == Some(|parts[i]|);
    }
  }

  /** No match of `m` starts inside `t` when `t` is followed by `after`. */
  ghost predicate NoStartIn(m: string -> Option<nat>, t: string, after: string) {
    forall k :: 0 <= k < |t| ==> m(t[k..] + after).None?
  }

  /** No even part holds the start of a match found in the text from there on. */
  ghost predicate LeftmostBy(m: string -> Option<nat>, parts: seq<string>) {
    forall i :: 0 <= i < |parts| && i % 2 == 0 ==> NoStartIn(m, parts[i], Concat(parts[i + 1..]))
  }

  lemma LeftmostHead(m: string -> Option<nat>, text: string, hit: string, rest: seq<string>)
    requires NoStartIn(m, text, hit + Concat(rest))
    ensures NoStartIn(m, text, Concat([hit] + rest))
  {
    assert ([hit] + rest)[1..] == rest;
  }

  lemma LeftmostCons(m: string -> Option<nat>, text: string, hit: string, rest: seq<string>)
    requires NoStartIn(m, text, hit + Concat(rest)) && LeftmostBy(m, rest)
    ensures LeftmostBy(m, [text, hit] + rest)
  {
    var parts := [text, hit] + rest;
    forall i | 0 <= i < |parts| && i % 2 == 0 ensures NoStartIn(m, parts[i], Concat(parts[i + 1..])) {
      if i == 0 {
        assert parts[0] == text && parts[1..] == [hit] + rest;
        LeftmostHead(m, text, hit, rest);
      } else {
        assert parts[i] == rest[i - 2] && parts[i + 1..] == rest[i - 1..];
      }
    }
  }

  /** Text gathered at positions where no match starts holds no match start, read on to the end. */
  lemma GatheredNoStart(m: string -> Option<nat>, s: string, start: nat, q: nat)
    requires start <= q <= |s|
    requires forall i :: start <= i < q ==> m(s[i..]).None?
    ensures NoStartIn(m, s[start..q], s[q..])
  {
    forall k | 0 <= k < q - start ensures m(s[start..q][k..] + s[q..]).None? {
      assert s[start..q][k..] + s[q..] == s[start + k..];
    }
  }

  /** One turn of the split loop at a match keeps every even part free of match starts. */
  lemma LeftmostStep(m: string -> Option<nat>, s: string, start: nat, q: nat, n: nat)
    requires Sound(m) && start <= q < |s| && m(s[q..]) == Some(n)
    requires NoStartIn(m, s[start..q], s[q..])
    requires LeftmostBy(m, SplitFrom(m, s, q + n, q + n))
    ensures LeftmostBy(m, SplitFrom(m, s, start, q))
  {
    var rest := SplitFrom(m, s, q + n, q + n);
    var parts := [s[start..q], s[q..q + n]] + rest;
    assert LeftmostBy(m, parts) by {
      SplitFromLossless(m, s, q + n, q + n);
      LeftmostGathered(m, s, start, q, n, rest);
      LeftmostCons(m, s[start..q], s[q..q + n], rest);
    }
    SplitStepAtMatch(m, s, start, q, n);
  }

  /** The gathered text, followed by the match and the parts after it, holds no match start. */
  lemma LeftmostGathered(m: string -> Option<nat>, s: string, start: nat, q: nat, n: nat, rest: seq<string>)
    requires start <= q && q + n <= |s|
    requires NoStartIn(m, s[start..q], s[q..])
    requires ConcatsTo(rest, s[q + n..])
    ensures NoStartIn(m, s[start..q], s[q..q + n] + Concat(rest))
  {
    assert s[q..q + n] + s[q + n..] == s[q..];
  }

  /** At the end of the text the gathered text is the last part, and no match starts in it. */
  lemma LeftmostAtEnd(m: string -> Option<nat>, s: string, start: nat)
    requires Sound(m) && start <= |s|
    requires forall i :: start <= i < |s| ==> m(s[i..]).None?
    ensures LeftmostBy(m, SplitFrom(m, s, start, |s|))
  {
    var parts := SplitFrom(m, s, start, |s|);
    assert parts == [s[start..]];
    assert parts[1..] == [];
    GatheredNoStart(m, s, start, |s|);
    assert s[start..|s|] == s[start..] && s[|s|..] == [];
  }

  lemma {:induction false} SplitFromLeftmost(m: string -> Option<nat>, s: string, start: nat, q: nat)
    requires Sound(m) && start <= q <= |s|
    requires forall i :: start <= i < q ==> m(s[i..]).None?
    ensures LeftmostBy(m, SplitFrom(m, s, start, q))
    decreases |s| - q
  {
    if q == |s| {
      LeftmostAtEnd(m, s, start);
    } else {
      match m(s[q..])
      case None =>
        SplitFromLeftmost(m, s, start, q + 1);
        SkipStep(m, s, start, q);
      case Some(n) =>
        SplitFromLeftmost(m, s, q + n, q + n);
        GatheredNoStart(m, s, start, q);
        LeftmostStep(m, s, start, q, n);
    }
  }

  /**
   * Every match is the leftmost one: no match of the pattern starts anywhere inside a text part,
   * reading on through the parts after it.
   */
  lemma SplitLeftmost(p: Pattern, s: string)
    ensures var parts := Split(p, s);
      forall i, k :: 0 <= i < |parts| && i % 2 == 0 && 0 <= k < |parts[i]| ==>
        MatchLength(p, parts[i][k..] + Concat(parts[i + 1..])).None?
  {
    var m := MatcherOf(p);
    SplitFromLeftmost(m, s, 0, 0);
    var parts := Split(p, s);
    forall i, k | 0 <= i < |parts| && i % 2 == 0 && 0 <= k < |parts[i]|
      ensures MatchLength(p, parts[i][k..] + Concat(parts[i + 1..])).None?
    {
      assert NoStartIn(m, parts[i], Concat(parts[i + 1..]));
      assert m(parts[i][k..] + Concat(parts[i + 1..])).None?;
    }
  }

  /** Positions where no match starts are just gathered by the split loop. */
  lemma {:induction false} SplitSkips(m: string -> Option<nat>, c: char, s: string, start: nat, q: nat, end: nat)
    requires Sound(m) && OpensWith(m, c) && start <= q <= end <= |s|
    requires c !in s[q..end]
    ensures SplitFrom(m, s, start, q) == SplitFrom(m, s, start, end)
    decreases end - q
  {
    if q < end {
      assert s[q] == s[q..end][0] && s[q..][0] == s[q];
      assert m(s[q..]).None?;
      assert s[q + 1..end] == s[q..end][1..];
      SplitSkips(m, c, s, start, q + 1, end);
    }
  }

  /** Text without the opener splits into itself alone. */
  lemma SplitWithoutOpener(p: Pattern, s: string)
    requires Opener(p) !in s
    ensures Split(p, s) == [s]
  {
    MatcherOfOpens(p);
    assert s[0..|s|] == s;
    SplitSkips(MatcherOf(p), Opener(p), s, 0, 0, |s|);
  }

  /** One turn of the split loop at a position where a match starts. */
  lemma SplitStepAtMatch(m: string -> Option<nat>, s: string, start: nat, q: nat, n: nat)
    requires Sound(m) && start <= q < |s| && m(s[q..]) == Some(n)
    ensures SplitFrom(m, s, start, q) == [s[start..q], s[q..q + n]] + SplitFrom(m, s, q + n, q + n)
  {
  }

  lemma SplitAtBy(m: string -> Option<nat>, c: char, s: string, i: nat, n: nat)
    requires Sound(m) && OpensWith(m, c) && i + n <= |s|
    requires c !in s[..i] && c !in s[i + n..]
    requires m(s[i..]) == Some(n)
    ensures SplitFrom(m, s, 0, 0) == [s[..i], s[i..i + n], s[i + n..]]
  {
    var e := i + n;
    assert s[0..i] == s[..i] && s[e..|s|] == s[e..];
    SplitSkips(m, c, s, 0, 0, i);
    SplitStepAtMatch(m, s, 0, i, n);
    SplitSkips(m, c, s, e, e, |s|);
    assert SplitFrom(m, s, e, e) == [s[e..]];
  }

  /** One match of length `n` at `i`, with no opener before or after it: the split is the three pieces. */
  lemma SplitAt(p: Pattern, s: string, i: nat, n: nat)
    requires i + n <= |s|
    requires Opener(p) !in s[..i] && Opener(p) !in s[i + n..]
    requires MatchLength(p, s[i..]) == Some(n)
    ensures Split(p, s) == [s[..i], s[i..i + n], s[i + n..]]
  {
    MatcherOfOpens(p);
    SplitAtBy(MatcherOf(p), Opener(p), s, i, n);
  }

  /** One match between two texts without the opener splits into the three pieces. */
  lemma SplitAroundMatch(p: Pattern, a: string, m: string, b: string)
    requires Opener(p) !in a && Opener(p) !in b
    requires MatchLength(p, m + b) == Some(|m|)
    ensures Split(p, a + m + b) == [a, m, b]
  {
    var s := a + m + b;
    assert s[..|a|] == a && s[|a|..] == m + b && s[|a|..|a| + |m|] == m && s[|a| + |m|..] == b;
    SplitAt(p, s, |a|, |m|);
  }
}

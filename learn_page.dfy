/**
 * How the learn page lays out an explanation: the text is cut into lines, each line becomes one
 * block (spacer, heading, bullet, numbered item or paragraph, with an indentation band), and the
 * text of a block is cut into plain and bold runs.
 */
module LearnPage {
  import opened Types
  import opened JsText
  import opened Regex

  /** A run of inline text. */
  datatype Inline = Plain(text: string) | Bold(text: string)

  /** The indentation band of a block. */
  datatype Indent = NoIndent | Shallow | Deep

  /**
   * What one line is shown as, with the text it shows before inline formatting. Headings carry no
   * indentation.
   */
  datatype Block =
    | Spacer
    | H4(text: string)
    | H3(text: string)
    | Bullet(indent: Indent, text: string)
    | Numbered(indent: Indent, number: string, text: string)
    | Para(indent: Indent, text: string)

  /** A block with its text cut into plain and bold runs. */
  datatype Rendered = Rendered(block: Block, content: seq<Inline>)

  // Lines

  /** `text.split('\n')`. */
  function SplitLines(s: string): (r: seq<string>)
    ensures |r| >= 1
    decreases |s|
  {
    if s == [] then [""]
    else
      var rest := SplitLines(s[1..]);
      if s[0] == '\n' then [""] + rest else [[s[0]] + rest[0]] + rest[1..]
  }

  /** `lines.join('\n')`. */
  function JoinLines(lines: seq<string>): string
    requires |lines| >= 1
  {
    if |lines| == 1 then lines[0] else lines[0] + "\n" + JoinLines(lines[1..])
  }

  function NewlineCount(s: string): nat {
    if s == [] then 0 else (if s[0] == '\n' then 1 else 0) + NewlineCount(s[1..])
  }

  /** Joining the lines back with newlines gives the text. */
  lemma {:induction false} SplitLinesJoin(s: string)
    ensures JoinLines(SplitLines(s)) == s
  {
    if s != [] {
      var rest := SplitLines(s[1..]);
      SplitLinesJoin(s[1..]);
      if s[0] == '\n' {
        assert ([""] + rest)[1..] == rest;
      } else {
        var r := [[s[0]] + rest[0]] + rest[1..];
        if |rest| == 1 {
          assert s == [s[0]] + s[1..];
        } else {
          assert r[1..] == rest[1..];
          assert JoinLines(rest) == rest[0] + "\n" + JoinLines(rest[1..]);
          assert s == [s[0]] + s[1..];
        }
      }
    }
  }

  /** No line holds a newline, and there is one line more than there are newlines. */
  lemma {:induction false} SplitLinesShape(s: string)
    ensures |SplitLines(s)| == NewlineCount(s) + 1
    ensures forall i :: 0 <= i < |SplitLines(s)| ==> '\n' !in SplitLines(s)[i]
  {
    if s != [] {
      SplitLinesShape(s[1..]);
      var rest := SplitLines(s[1..]);
      if s[0] != '\n' {
        var r := SplitLines(s);
        assert r[0] == [s[0]] + rest[0];
        forall i | 1 <= i < |r| ensures '\n' !in r[i] {
          assert r[i] == rest[i];
        }
      } else {
        var r := SplitLines(s);
        forall i | 1 <= i < |r| ensures '\n' !in r[i] {
          assert r[i] == rest[i - 1];
        }
      }
    }
  }

  // Inline runs

  /** One part of the bold split: bold, without two characters at each end, when it starts and ends with `**`. */
  function FormatPart(part: string): Inline {
    if StartsWith(part, "**") && EndsWith(part, "**") then
      Bold(if |part| >= 4 then part[2..|part| - 2] else "")
    else
      Plain(part)
  }

  /** formatInline: the text split on `(\*\*.*?\*\*)`, each part formatted. */
  function FormatInline(text: string): (r: seq<Inline>)
    ensures |r| == |Split(BoldSpan, text)|
  {
    var parts := Split(BoldSpan, text);
    seq(|parts|, i requires 0 <= i < |parts| => FormatPart(parts[i]))
  }

  /**
   * Each part of the split is the input cut at the bold spans; every span (odd position) becomes
   * bold with its stars removed, a plain part is shown as it is, and a bold part of four or more
   * characters is the text between its stars.
   */
  lemma FormatInlineParts(text: string)
    ensures Concat(Split(BoldSpan, text)) == text
    ensures var parts, r := Split(BoldSpan, text), FormatInline(text);
      forall i :: 0 <= i < |parts| ==>
        && (i % 2 == 1 ==> r[i].Bold? && "**" + r[i].text + "**" == parts[i])
        && (r[i].Plain? ==> r[i].text == parts[i])
        && (r[i].Bold? && |parts[i]| >= 4 ==> "**" + r[i].text + "**" == parts[i])
        && (r[i].Bold? && |parts[i]| < 4 ==> r[i].text == "")
  {
    SplitLossless(BoldSpan, text);
    SplitAlternates(BoldSpan, text);
    var parts := Split(BoldSpan, text);
    forall i | 0 <= i < |parts| && i % 2 == 1
      ensures FormatPart(parts[i]).Bold? && "**" + FormatPart(parts[i]).text + "**" == parts[i]
    {
      BoldSpanShape(parts[i]);
    }
    forall i | 0 <= i < |parts| && FormatPart(parts[i]).Bold? && |parts[i]| >= 4
      ensures "**" + FormatPart(parts[i]).text + "**" == parts[i]
    {
      StarredShape(parts[i]);
    }
  }

  lemma StarredShape(p: string)
    requires StartsWith(p, "**") && EndsWith(p, "**") && |p| >= 4
    ensures "**" + p[2..|p| - 2] + "**" == p
  {
    assert p == p[..2] + p[2..|p| - 2] + p[|p| - 2..];
  }

  /** A whole bold span starts and ends with `**`. */
  lemma BoldSpanShape(p: string)
    requires MatchLength(BoldSpan, p) == Some(|p|)
    ensures FormatPart(p).Bold? && "**" + FormatPart(p).text + "**" == p
  {
    BoldAtSpells(p);
    assert p[..|p|] == p;
    StarredShape(p);
  }

  /** Text without stars is one plain run. */
  lemma FormatInlineUnstarred(text: string)
    requires '*' !in text
    ensures FormatInline(text) == [Plain(text)]
  {
    SplitWithoutOpener(BoldSpan, text);
  }

  /** The lazy close reaches the first `**`, when no star or line terminator comes before it. */
  lemma {:induction false} CloseEndOver(t: string, i: nat, n: nat)
    requires i + 2 <= n <= |t| && t[n - 2] == '*' && t[n - 1] == '*'
    requires forall x :: i <= x < n - 2 ==> t[x] != '*' && !IsLineTerminator(t[x])
    ensures CloseEnd(t, i) == Some(n)
    decreases n - i
  {
    if i + 2 < n {
      CloseEndOver(t, i + 1, n);
    }
  }

  /** A bold span whose inner text has no star and no line terminator is matched whole. */
  lemma BoldSpanWhole(inner: string, b: string)
    requires '*' !in inner
    requires forall c :: c in inner ==> !IsLineTerminator(c)
    ensures MatchLength(BoldSpan, "**" + inner + "**" + b) == Some(|inner| + 4)
  {
    var m := "**" + inner + "**";
    var t := m + b;
    forall x | 2 <= x < |m| - 2 ensures t[x] != '*' && !IsLineTerminator(t[x]) {
      assert t[x] == inner[x - 2];
    }
    CloseEndOver(t, 2, |m|);
  }

  /** Text without stars is formatted as itself. */
  lemma PlainPart(a: string)
    requires '*' !in a
    ensures FormatPart(a) == Plain(a)
  {
    assert !StartsWith(a, "**") by { assert |a| >= 2 ==> a[..2][0] == a[0]; }
  }

  /** A starred span is formatted as bold text without its stars. */
  lemma BoldPart(inner: string)
    ensures FormatPart("**" + inner + "**") == Bold(inner)
  {
    var m := "**" + inner + "**";
    assert m[..2] == "**" && m[|m| - 2..] == "**" && m[2..|m| - 2] == inner;
  }

  /** One bold span between two texts without stars: plain, bold with the stars removed, plain. */
  lemma FormatInlineAround(a: string, inner: string, b: string)
    requires '*' !in a && '*' !in inner && '*' !in b
    requires forall c :: c in inner ==> !IsLineTerminator(c)
    ensures FormatInline(a + "**" + inner + "**" + b) == [Plain(a), Bold(inner), Plain(b)]
  {
    var m := "**" + inner + "**";
    BoldSpanWhole(inner, b);
    assert m + b == "**" + inner + "**" + b;
    assert a + "**" + inner + "**" + b == a + m + b;
    SplitAroundMatch(BoldSpan, a, m, b);
    PlainPart(a);
    BoldPart(inner);
    PlainPart(b);
  }

  /** "a **b** c" is plain "a ", bold "b", plain " c". */
  lemma FormatInlineExample()
    ensures FormatInline("a **b** c") == [Plain("a "), Bold("b"), Plain(" c")]
  {
    assert "a **b** c" == "a " + "**" + "b" + "**" + " c";
    FormatInlineAround("a ", "b", " c");
  }

  // Line classification

  /** `line.match(/^\s*\/)[0].length`, banded: more than four is deep, one to four shallow. */
  function IndentOf(line: string): Indent {
    var n := LeadingWhitespace(line);
    if n > 4 then Deep else if n > 0 then Shallow else NoIndent
  }

  /** The end of the run of characters `.` matches, starting at `i`. */
  function LineEnd(t: string, i: nat): (j: nat)
    requires i <= |t|
    ensures i <= j <= |t|
    decreases |t| - i
  {
    if i < |t| && !IsLineTerminator(t[i]) then LineEnd(t, i + 1) else i
  }

  /** `t.match(/^(\d+)\.\s+(.*)/)`: the number and the rest of the item. */
  function NumberedMatch(t: string): Option<(string, string)> {
    var j := DigitsEnd(t, 0);
    if j == 0 || j == |t| || t[j] != '.' then None
    else
      var after := TrimStart(t[j + 1..]);
      if |after| == |t| - (j + 1) then None else Some((t[..j], after[..LineEnd(after, 0)]))
  }

  /** The block one line becomes. */
  function ClassifyLine(line: string): Block {
    var t := Trim(line);
    if t == [] then Spacer
    else if StartsWith(t, "####") then H4(TrimStart(t[4..]))
    else if StartsWith(t, "###") then H3(TrimStart(t[3..]))
    else if StartsWith(t, "* ") || StartsWith(t, "- ") then Bullet(IndentOf(line), t[2..])
    else
      match NumberedMatch(t)
      case Some((number, rest)) => Numbered(IndentOf(line), number, rest)
      case None => Para(IndentOf(line), t)
  }

  /** What a block shows: its text through formatInline; a spacer shows nothing. */
  function Content(b: Block): seq<Inline> {
    if b.Spacer? then [] else FormatInline(b.text)
  }

  function RenderLine(line: string): Rendered {
    var b := ClassifyLine(line);
    Rendered(b, Content(b))
  }

  /** FormattedText: one rendered block per line of the text. */
  function FormattedText(text: string): (r: seq<Rendered>)
    ensures |r| == |SplitLines(text)|
  {
    var lines := SplitLines(text);
    seq(|lines|, i requires 0 <= i < |lines| => RenderLine(lines[i]))
  }

  /**
   * The output has exactly one block per newline-separated line, in order, each showing its text
   * through formatInline.
   */
  lemma OneBlockPerLine(text: string)
    ensures |FormattedText(text)| == NewlineCount(text) + 1
    ensures forall i :: 0 <= i < |FormattedText(text)| ==>
      && '\n' !in SplitLines(text)[i]
      && FormattedText(text)[i].block == ClassifyLine(SplitLines(text)[i])
      && FormattedText(text)[i].content == Content(ClassifyLine(SplitLines(text)[i]))
  {
    SplitLinesShape(text);
  }

  /** A line becomes a spacer exactly when it is blank. */
  lemma SpacerIffBlank(line: string)
    ensures ClassifyLine(line) == Spacer <==> AllWhitespace(line)
  {
    TrimBlankIff(line);
  }

  /**
   * `####` is tested first, so a `####` line is never an H3; a heading's text is what follows its
   * marker with the leading whitespace removed.
   */
  lemma HeadingOrder(line: string)
    ensures StartsWith(Trim(line), "####") ==> ClassifyLine(line) == H4(TrimStart(Trim(line)[4..]))
    ensures ClassifyLine(line).H3? <==> StartsWith(Trim(line), "###") && !StartsWith(Trim(line), "####")
    ensures ClassifyLine(line).H3? ==> ClassifyLine(line) == H3(TrimStart(Trim(line)[3..]))
  {
  }

  /** Removing `^####\s*` leaves text that does not start with whitespace. */
  lemma HeadingTextUnpadded(line: string)
    requires ClassifyLine(line).H4? || ClassifyLine(line).H3?
    ensures var t := Trim(line);
      var rest := if ClassifyLine(line).H4? then t[4..] else t[3..];
      AllWhitespace(rest[..|rest| - |TrimStart(rest)|])
      && (TrimStart(rest) == [] || !IsJsWhitespace(TrimStart(rest)[0]))
  {
    var t := Trim(line);
    if ClassifyLine(line).H4? {
      TrimStartSpec(t[4..]);
    } else {
      TrimStartSpec(t[3..]);
    }
  }

  /** A non-heading line starting with `* ` or `- ` is a bullet of the rest, at the line's indentation. */
  lemma BulletLine(line: string)
    requires StartsWith(Trim(line), "* ") || StartsWith(Trim(line), "- ")
    ensures ClassifyLine(line) == Bullet(IndentOf(line), Trim(line)[2..])
  {
    var t := Trim(line);
    assert t[0] == '*' || t[0] == '-';
  }

  /** Other lines are numbered items when they match the item pattern, and paragraphs otherwise. */
  lemma ItemOrParagraph(line: string)
    requires Trim(line) != [] && !StartsWith(Trim(line), "###")
    requires !StartsWith(Trim(line), "* ") && !StartsWith(Trim(line), "- ")
    ensures NumberedMatch(Trim(line)).Some? ==>
      ClassifyLine(line) == Numbered(IndentOf(line), NumberedMatch(Trim(line)).value.0, NumberedMatch(Trim(line)).value.1)
    ensures NumberedMatch(Trim(line)).None? ==> ClassifyLine(line) == Para(IndentOf(line), Trim(line))
  {
  }

  lemma {:induction false} LineEndOf(t: string, i: nat, k: nat)
    requires i <= k <= |t| && (forall c :: c in t[i..k] ==> !IsLineTerminator(c))
    requires k == |t| || IsLineTerminator(t[k])
    ensures LineEnd(t, i) == k
    decreases k - i
  {
    if i < k {
      assert t[i] == t[i..k][0];
      assert t[i + 1..k] == t[i..k][1..];
      LineEndOf(t, i + 1, k);
    }
  }

  /**
   * The numbered-item pattern reads back what it is given: a non-empty digit run, a full stop, a
   * non-empty whitespace run and a rest without line terminators that does not start with
   * whitespace give back the digits and the rest.
   */
  lemma NumberedRoundTrip(number: string, sep: string, rest: string)
    requires |number| > 0 && AllDigits(number)
    requires |sep| > 0 && AllWhitespace(sep)
    requires forall c :: c in rest ==> !IsLineTerminator(c)
    requires rest == [] || !IsJsWhitespace(rest[0])
    ensures NumberedMatch(number + "." + sep + rest) == Some((number, rest))
  {
    var t := number + "." + sep + rest;
    var j := |number|;
    assert t[0..j] == number && t[j] == '.';
    DigitsEndOfDigitsEnd(t, j);
    assert t[j + 1..] == sep + rest;
    TrimStartOfPadded(sep, rest);
    assert rest[0..|rest|] == rest && rest[..|rest|] == rest;
    LineEndOf(rest, 0, |rest|);
    assert t[..j] == number;
  }

  lemma DigitsEndOfDigitsEnd(t: string, j: nat)
    requires j < |t| && AllDigits(t[0..j]) && !IsDigit(t[j])
    ensures DigitsEnd(t, 0) == j
  {
    DigitsEndOfDigits(t, 0, j);
  }

  /**
   * What a numbered match consists of: the line starts with the number (a non-empty digit run) and
   * a full stop; a non-empty whitespace run follows, and the rest is what comes after it up to the
   * end of the line or the first line terminator.
   */
  lemma NumberedMatchSpells(t: string)
    requires NumberedMatch(t).Some?
    ensures var (number, rest) := NumberedMatch(t).value;
      && 0 < |number| < |t| && AllDigits(number) && t[..|number|] == number && t[|number|] == '.'
      && |TrimStart(t[|number| + 1..])| < |t| - (|number| + 1)
      && StartsWith(TrimStart(t[|number| + 1..]), rest)
      && (forall c :: c in rest ==> !IsLineTerminator(c))
      && (|rest| == |TrimStart(t[|number| + 1..])| || IsLineTerminator(TrimStart(t[|number| + 1..])[|rest|]))
  {
    var j := DigitsEnd(t, 0);
    var after := TrimStart(t[j + 1..]);
    LineEndSpec(after, 0);
    assert t[..j] == t[0..j];
    assert after[..LineEnd(after, 0)] == after[0..LineEnd(after, 0)];
  }

  lemma {:induction false} LineEndSpec(t: string, i: nat)
    requires i <= |t|
    ensures forall c :: c in t[i..LineEnd(t, i)] ==> !IsLineTerminator(c)
    ensures LineEnd(t, i) == |t| || IsLineTerminator(t[LineEnd(t, i)])
    decreases |t| - i
  {
    if i < |t| && !IsLineTerminator(t[i]) {
      LineEndSpec(t, i + 1);
      var k := LineEnd(t, i);
      assert t[i..k] == [t[i]] + t[i + 1..k];
    }
  }

  /** Leading whitespace followed by text: the band counts exactly the whitespace. */
  lemma IndentOfPadded(w: string, s: string)
    requires AllWhitespace(w) && (s == [] || !IsJsWhitespace(s[0]))
    ensures LeadingWhitespace(w + s) == |w|
    ensures IndentOf(w + s) == (if |w| > 4 then Deep else if |w| > 0 then Shallow else NoIndent)
  {
    TrimStartOfPadded(w, s);
  }

  lemma {:induction false} TrimStartOfPadded(w: string, s: string)
    requires AllWhitespace(w) && (s == [] || !IsJsWhitespace(s[0]))
    ensures TrimStart(w + s) == s
  {
    if w != [] {
      assert (w + s)[1..] == w[1..] + s;
      TrimStartOfPadded(w[1..], s);
    } else {
      assert w + s == s;
    }
  }

  /** Two spaces then "* item" is a shallow bullet showing the plain run "item". */
  lemma BulletExample()
    ensures ClassifyLine("  " + "* item") == Bullet(Shallow, "item")
    ensures Content(Bullet(Shallow, "item")) == [Plain("item")]
  {
    IndentOfPadded("  ", "* item");
    TrimOfPadded("  ", "* item");
    BulletLine("  " + "* item");
    assert "* item"[2..] == "item";
    FormatInlineUnstarred("item");
  }

  /** Trimming a line with whitespace only before its text. */
  lemma TrimOfPadded(w: string, s: string)
    requires AllWhitespace(w) && s != [] && !IsJsWhitespace(s[0]) && !IsJsWhitespace(s[|s| - 1])
    ensures Trim(w + s) == s
  {
    TrimStartOfPadded(w, s);
    assert s[..|s|] == s;
  }

  /** A line starting with a digit is neither a heading nor a bullet. */
  lemma DigitLineUnmarked(t: string)
    requires t != [] && IsDigit(t[0])
    ensures !StartsWith(t, "###") && !StartsWith(t, "* ") && !StartsWith(t, "- ")
  {
    if |t| >= 2 {
      assert t[..2][0] == t[0];
    }
  }

  /** A line that is a number, a full stop, a whitespace run and a trimmed rest is an unindented item. */
  lemma NumberedLine(number: string, sep: string, rest: string)
    requires |number| > 0 && AllDigits(number)
    requires |sep| > 0 && AllWhitespace(sep)
    requires forall c :: c in rest ==> !IsLineTerminator(c)
    requires rest != [] && !IsJsWhitespace(rest[0]) && !IsJsWhitespace(rest[|rest| - 1])
    ensures ClassifyLine(number + "." + sep + rest) == Numbered(NoIndent, number, rest)
  {
    var line := number + "." + sep + rest;
    assert line[0] == number[0] && line[|line| - 1] == rest[|rest| - 1];
    assert line == "" + line;
    TrimOfPadded("", line);
    IndentOfPadded("", line);
    assert IsDigit(line[0]);
    DigitLineUnmarked(line);
    NumberedRoundTrip(number, sep, rest);
    ItemOrParagraph(line);
  }

  /** "12.  Use it" is item 12 showing the plain run "Use it". */
  lemma NumberedExample()
    ensures ClassifyLine("12.  Use it") == Numbered(NoIndent, "12", "Use it")
    ensures Content(Numbered(NoIndent, "12", "Use it")) == [Plain("Use it")]
  {
    assert "12.  Use it" == "12" + "." + "  " + "Use it";
    NumberedLine("12", "  ", "Use it");
    FormatInlineUnstarred("Use it");
  }
}

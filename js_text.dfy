/**
 * The JavaScript string primitives the application relies on: `trim()`, `toLowerCase()`,
 * the `\s`, `\d` and `\w` character classes (without the `u` flag), and `String(n)` for integers.
 */
module JsText {

  /** WhiteSpace and LineTerminator code points: what `trim()` removes and `\s` matches. */
  predicate IsJsWhitespace(c: char) {
    c == ' ' || c == '\t' || c == '\n' || c == '\r' || c == '\U{000B}' || c == '\U{000C}'
    || c == '\U{00A0}' || c == '\U{1680}' || ('\U{2000}' <= c <= '\U{200A}')
    || c == '\U{2028}' || c == '\U{2029}' || c == '\U{202F}' || c == '\U{205F}'
    || c == '\U{3000}' || c == '\U{FEFF}'
  }

  /** The code points `.` does not match. */
  predicate IsLineTerminator(c: char) {
    c == '\n' || c == '\r' || c == '\U{2028}' || c == '\U{2029}'
  }

  /** `\d`. */
  predicate IsDigit(c: char) {
    '0' <= c <= '9'
  }

  /** `\w`: ASCII letters, digits and the underscore. */
  predicate IsWordChar(c: char) {
    'a' <= c <= 'z' || 'A' <= c <= 'Z' || IsDigit(c) || c == '_'
  }

  predicate AllWhitespace(s: string) {
    forall i :: 0 <= i < |s| ==> IsJsWhitespace(s[i])
  }

  predicate AllDigits(s: string) {
    forall i :: 0 <= i < |s| ==> IsDigit(s[i])
  }

  predicate StartsWith(s: string, prefix: string) {
    |prefix| <= |s| && s[..|prefix|] == prefix
  }

  predicate EndsWith(s: string, suffix: string) {
    |suffix| <= |s| && s[|s| - |suffix|..] == suffix
  }

  /** `trimStart()`: drops the leading whitespace. */
  function TrimStart(s: string): (r: string)
    ensures |r| <= |s|
  {
    if |s| > 0 && IsJsWhitespace(s[0]) then TrimStart(s[1..]) else s
  }

  /** `trimEnd()`: drops the trailing whitespace. */
  function TrimEnd(s: string): (r: string)
    ensures |r| <= |s|
  {
    if |s| > 0 && IsJsWhitespace(s[|s| - 1]) then TrimEnd(s[..|s| - 1]) else s
  }

  /** `trimStart()` keeps the longest suffix that does not start with whitespace. */
  lemma {:induction false} TrimStartSpec(s: string)
    ensures TrimStart(s) == s[|s| - |TrimStart(s)|..]
    ensures AllWhitespace(s[..|s| - |TrimStart(s)|])
    ensures TrimStart(s) == [] || !IsJsWhitespace(TrimStart(s)[0])
  {
    if |s| > 0 && IsJsWhitespace(s[0]) {
      TrimStartSpec(s[1..]);
      var k := |s| - |TrimStart(s)|;
      assert s[1..][..k - 1] == s[1..k];
      assert forall i :: 0 < i < k ==> s[i] == s[1..][..k - 1][i - 1];
    }
  }

  /** `trimEnd()` keeps the longest prefix that does not end with whitespace. */
  lemma {:induction false} TrimEndSpec(s: string)
    ensures TrimEnd(s) == s[..|TrimEnd(s)|]
    ensures AllWhitespace(s[|TrimEnd(s)|..])
    ensures TrimEnd(s) == [] || !IsJsWhitespace(TrimEnd(s)[|TrimEnd(s)| - 1])
  {
    if |s| > 0 && IsJsWhitespace(s[|s| - 1]) {
      TrimEndSpec(s[..|s| - 1]);
      var n := |TrimEnd(s)|;
      assert s[..|s| - 1][n..] == s[n..|s| - 1];
      assert forall i :: n <= i < |s| - 1 ==> s[i] == s[..|s| - 1][n..][i - n];
    }
  }

  /** The length of the leading run of whitespace, i.e. what `/^\s* /` matches. */
  function LeadingWhitespace(s: string): (n: nat)
    ensures n <= |s|
  {
    |s| - |TrimStart(s)|
  }

  /** `trim()`: `trimEnd()` after `trimStart()`. */
  function Trim(s: string): (r: string)
    ensures |r| <= |s|
  {
    TrimEnd(TrimStart(s))
  }

  /** The leading run is all whitespace and is followed by a non-whitespace character or the end. */
  lemma LeadingWhitespaceSpec(s: string)
    ensures AllWhitespace(s[..LeadingWhitespace(s)])
    ensures LeadingWhitespace(s) == |s| || !IsJsWhitespace(s[LeadingWhitespace(s)])
  {
    TrimStartSpec(s);
  }

  /**
   * `trim()` returns the slice of `s` between its leading and its trailing whitespace: empty exactly
   * when `s` is blank, otherwise starting and ending with a non-whitespace character.
   */
  lemma TrimSpec(s: string)
    ensures LeadingWhitespace(s) + |Trim(s)| <= |s|
    ensures Trim(s) == s[LeadingWhitespace(s)..LeadingWhitespace(s) + |Trim(s)|]
    ensures AllWhitespace(s[..LeadingWhitespace(s)])
    ensures AllWhitespace(s[LeadingWhitespace(s) + |Trim(s)|..])
    ensures Trim(s) == [] || (!IsJsWhitespace(Trim(s)[0]) && !IsJsWhitespace(Trim(s)[|Trim(s)| - 1]))
  {
    var t := TrimStart(s);
    var k := LeadingWhitespace(s);
    TrimStartSpec(s);
    TrimEndSpec(t);
    var r := TrimEnd(t);
    assert t == s[k..];
    assert r == s[k..k + |r|] by {
      assert s[k..][..|r|] == s[k..k + |r|];
    }
    assert s[k + |r|..] == t[|r|..];
  }

  /** Trimming leaves nothing exactly when the input is all whitespace. */
  lemma TrimBlankIff(s: string)
    ensures Trim(s) == [] <==> AllWhitespace(s)
  {
    TrimSpec(s);
    var k := LeadingWhitespace(s);
    var r := Trim(s);
    if r == [] {
      assert s == s[..k] + s[k + |r|..];
      BlankTrimIsWhitespace(s[..k], s[k + |r|..]);
    } else {
      assert r[0] == s[k];
    }
  }

  lemma BlankTrimIsWhitespace(a: string, b: string)
    requires AllWhitespace(a) && AllWhitespace(b)
    ensures AllWhitespace(a + b)
  {
  }

  /** The case mapping of `toLowerCase()` on ASCII letters. */
  function LowerChar(c: char): char {
    if 'A' <= c <= 'Z' then (c as int + 32) as char else c
  }

  /** `toLowerCase()`, restricted to ASCII letters. */
  function ToLowerCase(s: string): string {
    seq(|s|, i requires 0 <= i < |s| => LowerChar(s[i]))
  }

  /** `s.replace(/[^\w]/g, '')`: the word characters of `s`, in order. */
  function RemoveNonWord(s: string): (r: string)
    ensures |r| <= |s|
    ensures forall i :: 0 <= i < |r| ==> IsWordChar(r[i])
  {
    if s == [] then [] else (if IsWordChar(s[0]) then [s[0]] else []) + RemoveNonWord(s[1..])
  }

  /** On one character: a word character is kept, any other character is dropped. */
  lemma RemoveNonWordChar(c: char)
    ensures RemoveNonWord([c]) == if IsWordChar(c) then [c] else []
  {
    assert [c][1..] == [];
  }

  /** Removal works character by character: the result for `a + b` is the result for `a`, then for `b`. */
  lemma {:induction false} RemoveNonWordAppend(a: string, b: string)
    ensures RemoveNonWord(a + b) == RemoveNonWord(a) + RemoveNonWord(b)
  {
    if a != [] {
      assert (a + b)[0] == a[0] && (a + b)[1..] == a[1..] + b;
      RemoveNonWordAppend(a[1..], b);
      var h := if IsWordChar(a[0]) then [a[0]] else [];
      assert RemoveNonWord(a + b) == h + (RemoveNonWord(a[1..]) + RemoveNonWord(b));
      assert RemoveNonWord(a) == h + RemoveNonWord(a[1..]);
    } else {
      assert a + b == b;
    }
  }

  /** Removing non-word characters keeps a string made only of word characters. */
  lemma {:induction false} RemoveNonWordKeepsWords(s: string)
    requires forall i :: 0 <= i < |s| ==> IsWordChar(s[i])
    ensures RemoveNonWord(s) == s
  {
    if s != [] {
      RemoveNonWordKeepsWords(s[1..]);
      assert s == [s[0]] + s[1..];
    }
  }

  /** Whitespace, lower-cased or not, holds no word character. */
  lemma {:induction false} RemoveNonWordOfWhitespace(s: string)
    requires AllWhitespace(s)
    ensures RemoveNonWord(ToLowerCase(s)) == []
  {
    if s != [] {
      assert ToLowerCase(s) == [LowerChar(s[0])] + ToLowerCase(s[1..]);
      assert !IsWordChar(LowerChar(s[0]));
      RemoveNonWordOfWhitespace(s[1..]);
      assert ToLowerCase(s)[1..] == ToLowerCase(s[1..]);
    }
  }

  lemma ToLowerCaseAppend(a: string, b: string)
    ensures ToLowerCase(a + b) == ToLowerCase(a) + ToLowerCase(b)
  {
  }

  /** Trimming never changes which word characters a string holds, whatever its case. */
  lemma WordsIgnoreTrim(s: string)
    ensures RemoveNonWord(ToLowerCase(Trim(s))) == RemoveNonWord(ToLowerCase(s))
  {
    var k := LeadingWhitespace(s);
    var r := Trim(s);
    TrimSpec(s);
    var lead, tail := s[..k], s[k + |r|..];
    assert s == lead + r + tail;
    ToLowerCaseAppend(lead + r, tail);
    ToLowerCaseAppend(lead, r);
    RemoveNonWordAppend(ToLowerCase(lead) + ToLowerCase(r), ToLowerCase(tail));
    RemoveNonWordAppend(ToLowerCase(lead), ToLowerCase(r));
    RemoveNonWordOfWhitespace(lead);
    RemoveNonWordOfWhitespace(tail);
  }

  function DigitChar(d: nat): (c: char)
    requires d < 10
    ensures IsDigit(c)
  {
    ('0' as int + d) as char
  }

  /** `String(n)` for a non-negative integer: its decimal digits. */
  function NatToString(n: nat): (r: string)
    ensures |r| >= 1 && AllDigits(r)
    ensures n < 10 <==> |r| == 1
  {
    if n < 10 then [DigitChar(n)] else NatToString(n / 10) + [DigitChar(n % 10)]
  }

  /** `String(i)` for an integer. */
  function IntToString(i: int): (r: string)
    ensures |r| >= 1
    ensures i >= 0 ==> AllDigits(r)
    ensures i < 0 ==> r[0] == '-'
  {
    if i < 0 then "-" + NatToString(-i) else NatToString(i)
  }

  lemma {:induction false} NatToStringInjective(a: nat, b: nat)
    requires NatToString(a) == NatToString(b)
    ensures a == b
  {
    var s := NatToString(a);
    if a >= 10 {
      assert b >= 10;
      assert DigitChar(a % 10) == s[|s| - 1] == DigitChar(b % 10);
      assert NatToString(a / 10) == s[..|s| - 1] == NatToString(b / 10);
      NatToStringInjective(a / 10, b / 10);
    } else {
      assert DigitChar(a) == s[0] == DigitChar(b);
    }
  }

  /** Distinct gap numbers give distinct keys. */
  lemma IntToStringInjective(a: int, b: int)
    ensures IntToString(a) == IntToString(b) <==> a == b
  {
    if IntToString(a) == IntToString(b) {
      if a < 0 && b < 0 {
        assert NatToString(-a) == IntToString(a)[1..] == NatToString(-b);
        NatToStringInjective(-a, -b);
      } else if a >= 0 && b >= 0 {
        NatToStringInjective(a, b);
      }
    }
  }
}

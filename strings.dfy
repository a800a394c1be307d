/**
 * The parts of Python's `str` that the preprocessing code relies on:
 * whitespace, `sep.join`, `split()`, `strip()`, `in`, `endswith` and
 * `replace`, written as functions over `seq<char>`.
 */
module Strings {

  /** `str.isspace()`: exactly the characters `\s` matches in a str pattern. */
  predicate IsWhitespace(c: char)
  {
    || c == '\t' || c == '\n' || c == '\U{000B}' || c == '\U{000C}' || c == '\r'
    || ('\U{001C}' <= c <= '\U{001F}') || c == ' ' || c == '\U{0085}' || c == '\U{00A0}'
    || c == '\U{1680}' || ('\U{2000}' <= c <= '\U{200A}') || c == '\U{2028}' || c == '\U{2029}'
    || c == '\U{202F}' || c == '\U{205F}' || c == '\U{3000}'
  }

  /** `sep.join(parts)`. */
  function Join(sep: string, parts: seq<string>): string
  {
    if |parts| == 0 then ""
    else if |parts| == 1 then parts[0]
    else parts[0] + sep + Join(sep, parts[1..])
  }

  /** Number of whitespace characters at the start of `s`. */
  function LeadingWhitespace(s: string): (n: nat)
    ensures n <= |s|
    ensures forall i :: 0 <= i < n ==> IsWhitespace(s[i])
    ensures n < |s| ==> !IsWhitespace(s[n])
  {
    if s == [] || !IsWhitespace(s[0]) then 0 else 1 + LeadingWhitespace(s[1..])
  }

  /** Number of whitespace characters at the end of `s`. */
  function TrailingWhitespace(s: string): (n: nat)
    ensures n <= |s|
    ensures forall i :: |s| - n <= i < |s| ==> IsWhitespace(s[i])
    ensures n < |s| ==> !IsWhitespace(s[|s| - n - 1])
  {
    if s == [] || !IsWhitespace(s[|s| - 1]) then 0 else 1 + TrailingWhitespace(s[..|s| - 1])
  }

  /** Length of the run of non-whitespace characters at the start of `s`. */
  function WordLength(s: string): (n: nat)
    ensures n <= |s|
    ensures forall i :: 0 <= i < n ==> !IsWhitespace(s[i])
    ensures n < |s| ==> IsWhitespace(s[n])
  {
    if s == [] || IsWhitespace(s[0]) then 0 else 1 + WordLength(s[1..])
  }

  /** `s.split()`: the maximal runs of non-whitespace characters, in order. */
  function Words(s: string): (ws: seq<string>)
    decreases |s|
  {
    var k := LeadingWhitespace(s);
    if k == |s| then []
    else
      var t := s[k..];
      var n := WordLength(t);
      [t[..n]] + Words(t[n..])
  }

  /** `s.strip()`. */
  function Strip(s: string): string
  {
    var k := LeadingWhitespace(s);
    if k == |s| then "" else s[k..|s| - TrailingWhitespace(s)]
  }

  predicate AllWhitespace(s: string)
  {
    forall i :: 0 <= i < |s| ==> IsWhitespace(s[i])
  }

  /** Appending whitespace never changes the words of a string. */
  lemma {:induction false} WordsIgnoreTrailingWhitespace(s: string, w: string)
    requires AllWhitespace(w)
    ensures Words(s + w) == Words(s)
    decreases |s|
  {
    var k := LeadingWhitespace(s);
    if k == |s| {
      assert AllWhitespace(s + w);
      assert LeadingWhitespace(s + w) == |s + w| by { LeadingWhitespaceOfBlank(s + w); }
    } else {
      var t := s[k..];
      var n := WordLength(t);
      WordsStepAt(s, t, k, n);
      LeadingWhitespacePrefix(s, w, k);
      WordLengthPrefix(t, w, n);
      SlicesAppend(s, w, k, n);
      WordsStepAt(s + w, t + w, k, n);
      WordsIgnoreTrailingWhitespace(t[n..], w);
    }
  }

  lemma SlicesAppend(s: string, w: string, k: nat, n: nat)
    requires k + n <= |s|
    ensures (s + w)[k..] == s[k..] + w
    ensures (s[k..] + w)[..n] == s[k..][..n] && (s[k..] + w)[n..] == s[k..][n..] + w
  {
  }

  lemma {:induction false} LeadingWhitespaceOfBlank(s: string)
    requires AllWhitespace(s)
    ensures LeadingWhitespace(s) == |s|
    decreases |s|
  {
    if s != [] {
      LeadingWhitespaceOfBlank(s[1..]);
    }
  }

  lemma {:induction false} LeadingWhitespacePrefix(s: string, w: string, k: nat)
    requires k == LeadingWhitespace(s) && k < |s|
    ensures LeadingWhitespace(s + w) == k
    decreases |s|
  {
    if k > 0 {
      assert (s + w)[1..] == s[1..] + w;
      LeadingWhitespacePrefix(s[1..], w, k - 1);
    }
  }

  lemma {:induction false} WordLengthPrefix(t: string, w: string, n: nat)
    requires n == WordLength(t)
    requires AllWhitespace(w)
    ensures WordLength(t + w) == n
    decreases |t|
  {
    if t == [] {
      if w != [] { assert (t + w)[0] == w[0]; }
    } else if !IsWhitespace(t[0]) {
      assert (t + w)[1..] == t[1..] + w;
      WordLengthPrefix(t[1..], w, n - 1);
    }
  }

  /** Leading whitespace changes no word. */
  lemma WordsSkipLeading(s: string, k: nat)
    requires k == LeadingWhitespace(s)
    ensures Words(s[k..]) == Words(s)
  {
    var t := s[k..];
    if k < |s| {
      assert LeadingWhitespace(t) == 0;
      assert t[0..] == t;
    } else {
      assert t == [];
    }
  }

  /** `s.strip().split() == s.split()`: stripping first changes no word. */
  lemma WordsOfStrip(s: string)
    ensures Words(Strip(s)) == Words(s)
  {
    var k := LeadingWhitespace(s);
    if k < |s| {
      var m := TrailingWhitespace(s);
      assert m < |s| - k by {
        assert !IsWhitespace(s[k]);
      }
      var u := s[k..|s| - m];
      assert Strip(s) == u;
      var w := s[|s| - m..];
      assert s[k..] == u + w;
      assert AllWhitespace(w);
      WordsIgnoreTrailingWhitespace(u, w);
      WordsSkipLeading(s, k);
    } else {
      assert Strip(s) == "";
    }
  }

  lemma {:induction false} LeadingWhitespaceAfterBlank(w: string, b: string)
    requires AllWhitespace(w)
    ensures LeadingWhitespace(w + b) == |w| + LeadingWhitespace(b)
    decreases |w|
  {
    if w == [] {
      assert w + b == b;
    } else {
      assert (w + b)[1..] == w[1..] + b;
      LeadingWhitespaceAfterBlank(w[1..], b);
    }
  }

  lemma WordsAfterBlank(w: string, b: string)
    requires AllWhitespace(w)
    ensures Words(w + b) == Words(b)
  {
    var s := w + b;
    var k := LeadingWhitespace(b);
    var j := |w| + k;
    assert j == LeadingWhitespace(s) by {
      LeadingWhitespaceAfterBlank(w, b);
    }
    assert s[j..] == b[k..];
    SameWordsAfterLeading(s, b, j, k);
  }

  /** Two strings whose leading whitespace is followed by the same text have the same words. */
  lemma SameWordsAfterLeading(s: string, b: string, j: nat, k: nat)
    requires j == LeadingWhitespace(s) && k == LeadingWhitespace(b) && s[j..] == b[k..]
    ensures Words(s) == Words(b)
  {
    WordsSkipLeading(s, j);
    WordsSkipLeading(b, k);
  }

  lemma {:induction false} WordLengthBeforeSpace(t: string, b: string)
    ensures WordLength(t + " " + b) == WordLength(t)
    decreases |t|
  {
    if t != [] && !IsWhitespace(t[0]) {
      assert (t + " " + b)[1..] == t[1..] + " " + b;
      WordLengthBeforeSpace(t[1..], b);
    } else if t == [] {
      assert (t + " " + b)[0] == ' ';
    }
  }

  /** One step of `split()`: the first word, then the words of the rest. */
  lemma WordsStep(s: string, k: nat, n: nat)
    requires k == LeadingWhitespace(s) && k < |s| && n == WordLength(s[k..])
    ensures Words(s) == [s[k..][..n]] + Words(s[k..][n..])
  {
  }

  /** A single space between two texts separates their words and adds none. */
  lemma {:induction false} WordsAroundSpace(a: string, b: string)
    ensures Words(a + " " + b) == Words(a) + Words(b)
    decreases |a|
  {
    var x := a + " " + b;
    var k := LeadingWhitespace(a);
    if k == |a| {
      WordsAroundSpaceAfterBlank(a, b);
    } else {
      var t := a[k..];
      var n := WordLength(t);
      var r := t[n..];
      assert Words(a) == [t[..n]] + Words(r) by {
        WordsStep(a, k, n);
      }
      WordsBeforeSpaceStep(a, b, k, n);
      WordsAroundSpace(r, b);
      FirstWordThen(Words(x), Words(a), Words(b), Words(r), Words(r + " " + b), t[..n]);
    }
  }

  /** The first word of a text is still the first word once a space and more text follow it. */
  lemma WordsBeforeSpaceStep(a: string, b: string, k: nat, n: nat)
    requires k == LeadingWhitespace(a) && k < |a| && n == WordLength(a[k..])
    ensures Words(a + " " + b) == [a[k..][..n]] + Words(a[k..][n..] + " " + b)
  {
    var t := a[k..];
    var y := t + " " + b;
    LeadingBeforeSpace(a, b, k);
    WordLengthBeforeSpace(t, b);
    WordsStepAt(a + " " + b, y, k, n);
    SlicesBeforeSpace(t, b, n);
  }

  lemma SlicesBeforeSpace(t: string, b: string, n: nat)
    requires n <= |t|
    ensures (t + " " + b)[..n] == t[..n] && (t + " " + b)[n..] == t[n..] + " " + b
  {
  }

  lemma LeadingBeforeSpace(a: string, b: string, k: nat)
    requires k == LeadingWhitespace(a) && k < |a|
    ensures LeadingWhitespace(a + " " + b) == k && (a + " " + b)[k..] == a[k..] + " " + b
  {
    LeadingWhitespacePrefix(a, " " + b, k);
    assert a + " " + b == a + (" " + b);
  }

  lemma WordsStepAt(x: string, y: string, k: nat, n: nat)
    requires k == LeadingWhitespace(x) && k < |x| && x[k..] == y && n == WordLength(y)
    ensures Words(x) == [y[..n]] + Words(y[n..])
  {
    WordsStep(x, k, n);
  }

  /** A blank text before the space contributes no word. */
  lemma WordsAroundSpaceAfterBlank(a: string, b: string)
    requires LeadingWhitespace(a) == |a|
    ensures Words(a + " " + b) == Words(a) + Words(b)
  {
    assert Words(a) == [];
    assert AllWhitespace(a + " ");
    assert a + " " + b == (a + " ") + b;
    WordsAfterBlank(a + " ", b);
  }

  /** Putting a first word in front of two word lists, joined. */
  lemma FirstWordThen(wx: seq<string>, wa: seq<string>, wb: seq<string>, wr: seq<string>, wrb: seq<string>,
                      w: string)
    requires wa == [w] + wr && wx == [w] + wrb && wrb == wr + wb
    ensures wx == wa + wb
  {
  }

  lemma SeqAssoc(x: string, y: string, z: string)
    ensures x + (y + z) == x + y + z
  {
  }

  /** `pattern` occurs in `s` starting at index `i`. */
  predicate OccursAt(s: string, pattern: string, i: int)
  {
    0 <= i && i + |pattern| <= |s| && s[i..i + |pattern|] == pattern
  }

  /** Python's `pattern in s`. */
  predicate Contains(s: string, pattern: string)
  {
    exists i | 0 <= i <= |s| - |pattern| :: OccursAt(s, pattern, i)
  }

  /** `s.endswith(suffix)`. */
  predicate EndsWith(s: string, suffix: string)
  {
    |suffix| <= |s| && s[|s| - |suffix|..] == suffix
  }

  /**
   * `s.replace(pattern, replacement)`: every non-overlapping occurrence,
   * taken from the left, is replaced; an empty pattern matches before every
   * character and at the end.
   */
  function Replace(s: string, pattern: string, replacement: string): string
    decreases |s|
  {
    if |pattern| == 0 then
      (if s == [] then replacement else replacement + [s[0]] + Replace(s[1..], pattern, replacement))
    else if |s| < |pattern| then s
    else if s[..|pattern|] == pattern then replacement + Replace(s[|pattern|..], pattern, replacement)
    else [s[0]] + Replace(s[1..], pattern, replacement)
  }

  /** A string that does not contain the pattern is returned unchanged. */
  lemma {:induction false} ReplaceAbsent(s: string, pattern: string, replacement: string)
    requires |pattern| > 0 && !Contains(s, pattern)
    ensures Replace(s, pattern, replacement) == s
    decreases |s|
  {
    if |s| >= |pattern| {
      assert !OccursAt(s, pattern, 0);
      assert !Contains(s[1..], pattern) by {
        forall i | OccursAt(s[1..], pattern, i) ensures OccursAt(s, pattern, i + 1) {
          assert s[1..][i..i + |pattern|] == s[i + 1..i + 1 + |pattern|];
        }
      }
      ReplaceAbsent(s[1..], pattern, replacement);
    }
  }

  /**
   * If the first `m` characters of `Replace(t, pattern, [c])` do not
   * contain `c`, no replacement happened there: they are the first `m`
   * characters of `t`.
   */
  lemma {:induction false} ReplacePrefixWithoutMark(t: string, pattern: string, c: char, m: nat)
    requires |pattern| > 0
    requires m <= |Replace(t, pattern, [c])|
    requires forall i :: 0 <= i < m ==> Replace(t, pattern, [c])[i] != c
    ensures m <= |t| && Replace(t, pattern, [c])[..m] == t[..m]
    decreases |t|
  {
    var r := Replace(t, pattern, [c]);
    if m > 0 && |t| >= |pattern| {
      assert r[0] != c;
      assert t[..|pattern|] != pattern;
      var r' := Replace(t[1..], pattern, [c]);
      assert r == [t[0]] + r';
      forall i | 0 <= i < m - 1 ensures r'[i] != c {
        assert r'[i] == r[i + 1];
      }
      ReplacePrefixWithoutMark(t[1..], pattern, c, m - 1);
      assert r[..m] == [t[0]] + r'[..m - 1];
    }
  }

  /**
   * A string headed by one character has no occurrence of the pattern
   * when its tail has none and none starts at its head.
   */
  lemma NoOccurrenceAfterHead(x: char, r: string, pattern: string)
    requires |pattern| > 0 && !Contains(r, pattern) && !OccursAt([x] + r, pattern, 0)
    ensures !Contains([x] + r, pattern)
  {
    var xr := [x] + r;
    forall i | 0 < i <= |xr| - |pattern| ensures !OccursAt(xr, pattern, i) {
      assert r[i - 1..i - 1 + |pattern|] == xr[i..i + |pattern|];
      assert !OccursAt(r, pattern, i - 1);
    }
  }

  /**
   * Replacing a pattern by one character that does not occur in it leaves
   * no occurrence of the pattern behind.
   */
  lemma {:induction false} ReplaceRemovesAll(s: string, pattern: string, c: char)
    requires |pattern| > 0 && c !in pattern
    ensures !Contains(Replace(s, pattern, [c]), pattern)
    decreases |s|
  {
    var r := Replace(s, pattern, [c]);
    if |s| < |pattern| {
      assert r == s;
      assert |r| < |pattern|;
    } else if s[..|pattern|] == pattern {
      var r' := Replace(s[|pattern|..], pattern, [c]);
      assert r == [c] + r';
      ReplaceRemovesAll(s[|pattern|..], pattern, c);
      assert !OccursAt(r, pattern, 0) by {
        if |pattern| <= |r| { assert r[..|pattern|][0] == c; }
      }
      NoOccurrenceAfterHead(c, r', pattern);
    } else {
      var r' := Replace(s[1..], pattern, [c]);
      assert r == [s[0]] + r';
      ReplaceRemovesAll(s[1..], pattern, c);
      assert !OccursAt(r, pattern, 0) by {
        if OccursAt(r, pattern, 0) {
          var m := |pattern| - 1;
          assert r[..|pattern|] == [s[0]] + r'[..m];
          forall j | 0 <= j < m ensures r'[j] != c {
            assert r'[j] == r[..|pattern|][j + 1];
          }
          ReplacePrefixWithoutMark(s[1..], pattern, c, m);
        }
      }
      NoOccurrenceAfterHead(s[0], r', pattern);
    }
  }
}

/**
 * Text normalisation of `CleanUtils` (NLPer/nlper/utils/clean_utils.py):
 * number masking, removal of non-text characters, removal of the literal
 * `\xao` token and the conversion of a list cell to one string. HTML
 * stripping (BeautifulSoup) and lemmatisation (spaCy) are parameters.
 */
module CleanUtils {
  import opened Strings
  import opened Values
  import opened Wrappers

  // ---------------------------------------------------------------------
  // hide_numbers
  // ---------------------------------------------------------------------

  /** The default `number_replacement`. */
  const NumberReplacement: string := "<num>"

  predicate IsDigit(c: char)
  {
    '0' <= c <= '9'
  }

  predicate NoDigit(s: string)
  {
    forall i :: 0 <= i < |s| ==> !IsDigit(s[i])
  }

  /** A character of the class `[.|,|;|:|/|\-|\\|MDCLXVI0-9]`. */
  predicate IsNumberRunChar(c: char)
  {
    || IsDigit(c) || c == '.' || c == '|' || c == ',' || c == ';' || c == ':' || c == '/' || c == '-' || c == '\\'
    || c == 'M' || c == 'D' || c == 'C' || c == 'L' || c == 'X' || c == 'V' || c == 'I'
  }

  /** Length of the run of number-run characters at the start of `s`. */
  function NumberRunLength(s: string): (n: nat)
    ensures n <= |s|
    ensures forall i :: 0 <= i < n ==> IsNumberRunChar(s[i])
    ensures n < |s| ==> !IsNumberRunChar(s[n])
  {
    if s == [] || !IsNumberRunChar(s[0]) then 0 else 1 + NumberRunLength(s[1..])
  }

  /**
   * The first `re.sub` of `hide_numbers`. Its pattern
   * `([0-9]+[class]+)+|([0-9]+?)` matches, at a digit, the maximal run of
   * class characters starting there (the first alternative when the run is
   * longer than one character, the second otherwise); elsewhere nothing
   * matches. So the substitution is this left-to-right scanner.
   */
  function MaskNumbers(s: string, token: string): (r: string)
    ensures NoDigit(token) ==> NoDigit(r)
    decreases |s|
  {
    if s == [] then ""
    else if IsDigit(s[0]) then
      var n := NumberRunLength(s);
      token + MaskNumbers(s[n..], token)
    else [s[0]] + MaskNumbers(s[1..], token)
  }

  /** No two whitespace characters stand next to each other in `s`. */
  ghost predicate NoDoubleBlank(s: string)
  {
    forall i, j :: 0 <= i < j < |s| && j == i + 1 ==> !(IsWhitespace(s[i]) && IsWhitespace(s[j]))
  }

  /** `re.sub("\\s+", " ", s)`: every maximal whitespace run becomes one space. */
  function CollapseWhitespace(s: string): (r: string)
    ensures |r| <= |s|
    decreases |s|
  {
    if s == [] then ""
    else if IsWhitespace(s[0]) then
      var k := LeadingWhitespace(s);
      " " + CollapseWhitespace(s[k..])
    else [s[0]] + CollapseWhitespace(s[1..])
  }

  /**
   * What collapsing leaves: whitespace only as single spaces, never two in
   * a row, empty only for empty input, starting with whitespace exactly
   * when the input does, and no other character that was not there before.
   */
  lemma {:induction false} CollapseWhitespaceShape(s: string)
    ensures |CollapseWhitespace(s)| == 0 <==> |s| == 0
    ensures |CollapseWhitespace(s)| > 0 ==> (IsWhitespace(CollapseWhitespace(s)[0]) <==> IsWhitespace(s[0]))
    ensures forall i :: 0 <= i < |CollapseWhitespace(s)| && IsWhitespace(CollapseWhitespace(s)[i]) ==>
      CollapseWhitespace(s)[i] == ' '
    ensures NoDoubleBlank(CollapseWhitespace(s))
    ensures forall c :: c in CollapseWhitespace(s) && !IsWhitespace(c) ==> c in s
    decreases |s|
  {
    if s != [] {
      var r := CollapseWhitespace(s);
      var k := if IsWhitespace(s[0]) then LeadingWhitespace(s) else 1;
      var r' := CollapseWhitespace(s[k..]);
      CollapseWhitespaceShape(s[k..]);
      assert r == [r[0]] + r';
      assert IsWhitespace(s[0]) ==> r[0] == ' ' && (k < |s| ==> !IsWhitespace(s[k..][0]));
      assert !IsWhitespace(s[0]) ==> r[0] == s[0];
      forall i | 1 <= i < |r| ensures r[i] == r'[i - 1] {
      }
      forall c | c in r' ensures c in r {
        var i :| 0 <= i < |r'| && r'[i] == c;
        assert r[i + 1] == c;
      }
      forall c | c in s[k..] ensures c in s {
        var i :| 0 <= i < |s[k..]| && s[k..][i] == c;
        assert s[k + i] == c;
      }
    }
  }

  /** The characters of `s` that are not whitespace, in order. */
  function NonWhitespace(s: string): string
  {
    if s == [] then ""
    else if IsWhitespace(s[0]) then NonWhitespace(s[1..])
    else [s[0]] + NonWhitespace(s[1..])
  }

  lemma {:induction false} NonWhitespaceSkipsBlank(s: string, k: nat)
    requires k <= |s| && forall i :: 0 <= i < k ==> IsWhitespace(s[i])
    ensures NonWhitespace(s[k..]) == NonWhitespace(s)
    decreases k
  {
    if k > 0 {
      NonWhitespaceSkipsBlank(s[1..], k - 1);
      assert s[1..][k - 1..] == s[k..];
    }
  }

  /** Collapsing whitespace keeps every other character, in order. */
  lemma {:induction false} CollapseKeepsText(s: string)
    ensures NonWhitespace(CollapseWhitespace(s)) == NonWhitespace(s)
    decreases |s|
  {
    if s != [] {
      if IsWhitespace(s[0]) {
        var k := LeadingWhitespace(s);
        CollapseKeepsText(s[k..]);
        NonWhitespaceSkipsBlank(s, k);
        assert (" " + CollapseWhitespace(s[k..]))[1..] == CollapseWhitespace(s[k..]);
      } else {
        CollapseKeepsText(s[1..]);
        assert ([s[0]] + CollapseWhitespace(s[1..]))[1..] == CollapseWhitespace(s[1..]);
      }
    }
  }

  /**
   * `CleanUtils.hide_numbers(text, number_replacement)`: every number run
   * becomes `" " + number_replacement + " "`, then whitespace runs collapse.
   */
  function HideNumbers(text: string, numberReplacement: string): (r: string)
    ensures NoDigit(numberReplacement) ==> NoDigit(r)
    ensures NoDoubleBlank(r)
  {
    var masked := MaskNumbers(text, " " + numberReplacement + " ");
    CollapseWhitespaceShape(masked);
    CollapseWhitespace(masked)
  }

  /**
   * `str(v)`, which `hide_numbers` applies before matching: a string is
   * itself, a missing value (`NaN`) prints as `nan`, and a list prints the
   * `repr` of its items between brackets.
   */
  function PyStr(v: Value): string
  {
    match v
    case Null => "nan"
    case Str(s) => s
    case List(items) => Repr(v)
  }

  /** `repr(v)`: a string in single quotes, a list as its items' `repr`s joined by `", "` in brackets. */
  function Repr(v: Value): string
    decreases v
  {
    match v
    case Null => "nan"
    case Str(s) => "'" + s + "'"
    case List(items) => "[" + Join(", ", seq(|items|, i requires 0 <= i < |items| => Repr(items[i]))) + "]"
  }

  /** A single word without digits passes `hide_numbers` unchanged. */
  lemma HideNumbersKeepsPlainWord(word: string, numberReplacement: string)
    requires NoDigit(word)
    requires forall i :: 0 <= i < |word| ==> !IsWhitespace(word[i])
    ensures HideNumbers(word, numberReplacement) == word
  {
    MaskNumbersKeepsPlainText(word, " " + numberReplacement + " ");
    CollapseSingleSpaced(word);
  }

  /** `hide_numbers(NaN)` is the text `nan`. */
  lemma HideNumbersOfMissing(numberReplacement: string)
    ensures HideNumbers(PyStr(Null), numberReplacement) == "nan"
  {
    var nan := PyStr(Null);
    assert nan == ['n', 'a', 'n'];
    assert NoDigit(nan) by {
      assert forall i :: 0 <= i < |nan| ==> !IsDigit(nan[i]);
    }
    HideNumbersKeepsPlainWord(nan, numberReplacement);
  }

  /** `r` is one maximal number run taken from a digit. */
  predicate IsNumberRun(r: string)
  {
    |r| > 0 && IsDigit(r[0]) && forall i :: 0 <= i < |r| ==> IsNumberRunChar(r[i])
  }

  /**
   * The masking replaces a number run by exactly one token and copies the
   * digit-free text before it unchanged; the run is maximal, because the
   * text after it does not start with a run character.
   */
  lemma {:induction false} MaskNumbersReplacesRun(p: string, r: string, q: string, token: string)
    requires NoDigit(p) && IsNumberRun(r)
    requires q == [] || !IsNumberRunChar(q[0])
    ensures MaskNumbers(p + r + q, token) == p + token + MaskNumbers(q, token)
    decreases |p|
  {
    if p == [] {
      assert p + r + q == r + q && (r + q)[|r|..] == q;
      RunLengthOf(r, q);
      MaskAtDigit(r + q, q, |r|, token);
    } else {
      var x := p + r + q;
      assert x[1..] == p[1..] + r + q && x[0] == p[0];
      MaskAtText(x, p[1..] + r + q, token);
      MaskNumbersReplacesRun(p[1..], r, q, token);
      assert p == [p[0]] + p[1..];
      SeqAssoc([p[0]], p[1..] + token, MaskNumbers(q, token));
      SeqAssoc([p[0]], p[1..], token);
    }
  }

  /** One step of the masking at a digit: its run becomes the token. */
  lemma MaskAtDigit(x: string, y: string, n: nat, token: string)
    requires x != [] && IsDigit(x[0]) && n == NumberRunLength(x) && x[n..] == y
    ensures MaskNumbers(x, token) == token + MaskNumbers(y, token)
  {
  }

  /** One step of the masking at a character that is not a digit: it is copied. */
  lemma MaskAtText(x: string, y: string, token: string)
    requires x != [] && !IsDigit(x[0]) && x[1..] == y
    ensures MaskNumbers(x, token) == [x[0]] + MaskNumbers(y, token)
  {
  }

  lemma {:induction false} RunLengthOf(r: string, q: string)
    requires forall i :: 0 <= i < |r| ==> IsNumberRunChar(r[i])
    requires q == [] || !IsNumberRunChar(q[0])
    ensures NumberRunLength(r + q) == |r|
    decreases |r|
  {
    if r == [] {
      assert r + q == q;
    } else {
      assert (r + q)[1..] == r[1..] + q;
      RunLengthOf(r[1..], q);
    }
  }

  /** Digit-free text passes the masking unchanged. */
  lemma {:induction false} MaskNumbersKeepsPlainText(p: string, token: string)
    requires NoDigit(p)
    ensures MaskNumbers(p, token) == p
    decreases |p|
  {
    if p != [] {
      MaskNumbersKeepsPlainText(p[1..], token);
    }
  }

  /** A whole number run is masked by exactly one token. */
  lemma MaskNumbersOfRun(r: string, token: string)
    requires IsNumberRun(r)
    ensures MaskNumbers(r, token) == token
  {
    MaskNumbersReplacesRun("", r, "", token);
    assert "" + r + "" == r;
    assert token + "" == token;
  }

  /** Whitespace in `s` is single spaces only. */
  ghost predicate SingleSpaced(s: string)
  {
    (forall i :: 0 <= i < |s| && IsWhitespace(s[i]) ==> s[i] == ' ')
    && NoDoubleBlank(s)
  }

  /** Collapsing leaves single-spaced text as it is. */
  lemma {:induction false} CollapseSingleSpaced(s: string)
    requires SingleSpaced(s)
    ensures CollapseWhitespace(s) == s
    decreases |s|
  {
    if s != [] {
      assert SingleSpaced(s[1..]);
      if IsWhitespace(s[0]) {
        assert LeadingWhitespace(s) == 1 by {
          assert |s| > 1 ==> !IsWhitespace(s[1]);
        }
      }
      CollapseSingleSpaced(s[1..]);
    }
  }

  /** One step of collapsing at a whitespace run: the run becomes one space. */
  lemma CollapseAtBlank(x: string, y: string, k: nat)
    requires x != [] && IsWhitespace(x[0]) && k == LeadingWhitespace(x) && x[k..] == y
    ensures CollapseWhitespace(x) == " " + CollapseWhitespace(y)
  {
  }

  /** One step of collapsing at a character that is not whitespace: it is copied. */
  lemma CollapseAtText(x: string, y: string)
    requires x != [] && !IsWhitespace(x[0]) && x[1..] == y
    ensures CollapseWhitespace(x) == [x[0]] + CollapseWhitespace(y)
  {
  }

  /** A common head in front of two results, the second one split in two. */
  lemma SameHeadThen(cx: string, ca: string, cb: string, cr: string, crb: string, h: string)
    requires ca == h + cr && cx == h + crb && crb == cr + cb
    ensures cx == ca + cb
  {
  }

  /** Collapsing works piecewise across a boundary after a non-whitespace character. */
  lemma {:induction false} CollapseAppend(a: string, b: string)
    requires a != [] && !IsWhitespace(a[|a| - 1])
    ensures CollapseWhitespace(a + b) == CollapseWhitespace(a) + CollapseWhitespace(b)
    decreases |a|
  {
    if |a| == 1 {
      assert (a + b)[1..] == b && a[1..] == [];
      CollapseAtText(a + b, b);
      CollapseAtText(a, []);
    } else {
      var k := if IsWhitespace(a[0]) then LeadingWhitespace(a) else 1;
      var a' := a[k..];
      assert k < |a| && a' != [] && a'[|a'| - 1] == a[|a| - 1];
      CollapseAppend(a', b);
      SlicesAppend(a, b, k, 0);
      if IsWhitespace(a[0]) {
        LeadingWhitespacePrefix(a, b, k);
        CollapseAtBlank(a + b, a' + b, k);
        CollapseAtBlank(a, a', k);
        SameHeadThen(CollapseWhitespace(a + b), CollapseWhitespace(a), CollapseWhitespace(b),
                     CollapseWhitespace(a'), CollapseWhitespace(a' + b), " ");
      } else {
        CollapseAtText(a + b, a' + b);
        CollapseAtText(a, a');
        SameHeadThen(CollapseWhitespace(a + b), CollapseWhitespace(a), CollapseWhitespace(b),
                     CollapseWhitespace(a'), CollapseWhitespace(a' + b), [a[0]]);
      }
    }
  }

  const Placeholder: string := " <num> "

  lemma PlaceholderSingleSpaced()
    ensures SingleSpaced(Placeholder)
    ensures CollapseWhitespace(Placeholder) == Placeholder
  {
    CollapseSingleSpaced(Placeholder);
  }

  /** A whole number run hides to one placeholder. */
  lemma HideNumbersOfRun(r: string)
    requires IsNumberRun(r)
    ensures HideNumbers(r, NumberReplacement) == Placeholder
  {
    assert " " + NumberReplacement + " " == Placeholder;
    MaskNumbersOfRun(r, Placeholder);
    PlaceholderSingleSpaced();
  }

  /** Number formats listed in the documentation of `hide_numbers`. */
  const DocumentedNumbers: seq<string> := [
    "22", "11:45", "99.99", "596,789", "6;15", "5.99", "29/12/2010", "10\\02\\2000",
    "15.V.2030", "10.01.2020", "29/XII/1990", "22---22-2222", "22......22.2000"]

  /**
   * Each documented format becomes one placeholder (the output keeps the
   * spaces around it).
   */
  lemma HideNumbersDocumentedExamples()
    ensures forall e :: e in DocumentedNumbers ==> HideNumbers(e, NumberReplacement) == Placeholder
  {
    DocumentedNumbersAreRuns();
    forall e | e in DocumentedNumbers ensures HideNumbers(e, NumberReplacement) == Placeholder {
      HideNumbersOfRun(e);
    }
  }

  lemma DocumentedNumbersAreRuns()
    ensures forall e :: e in DocumentedNumbers ==> IsNumberRun(e)
  {
  }

  /** A replacement that is single spaced and neither starts nor ends with whitespace. */
  ghost predicate TightToken(rep: string)
  {
    rep != [] && SingleSpaced(rep) && !IsWhitespace(rep[0]) && !IsWhitespace(rep[|rep| - 1])
  }

  /** Two number runs separated by a space become two placeholders. */
  lemma HideNumbersTwoRuns(r1: string, r2: string, rep: string)
    requires IsNumberRun(r1) && IsNumberRun(r2) && TightToken(rep)
    ensures HideNumbers(r1 + " " + r2, rep) == " " + rep + " " + rep + " "
  {
    var tok := " " + rep + " ";
    MaskTwoRuns(r1, r2, tok);
    CollapseTwoTokens(rep);
  }

  lemma MaskTwoRuns(r1: string, r2: string, token: string)
    requires IsNumberRun(r1) && IsNumberRun(r2)
    ensures MaskNumbers(r1 + " " + r2, token) == token + " " + token
  {
    MaskNumbersReplacesRun("", r1, " " + r2, token);
    assert "" + r1 + (" " + r2) == r1 + " " + r2;
    MaskNumbersReplacesRun(" ", r2, "", token);
    assert " " + r2 + "" == " " + r2;
  }

  lemma CollapseTwoTokens(rep: string)
    requires TightToken(rep)
    ensures CollapseWhitespace((" " + rep + " ") + " " + (" " + rep + " ")) == " " + rep + " " + rep + " "
  {
    TwoTokensRegrouped(rep);
    CollapseTokensAfterSpace(rep);
  }

  lemma TwoTokensRegrouped(rep: string)
    ensures (" " + rep + " ") + " " + (" " + rep + " ") == " " + (rep + "   " + (rep + " "))
  {
  }

  lemma CollapseTokensAfterSpace(rep: string)
    requires TightToken(rep)
    ensures CollapseWhitespace(" " + (rep + "   " + (rep + " "))) == " " + rep + " " + rep + " "
  {
    CollapseAfterSpace(rep + "   " + (rep + " "));
    CollapseTokensWithBlank(rep);
  }

  lemma CollapseTokensWithBlank(rep: string)
    requires TightToken(rep)
    ensures CollapseWhitespace(rep + "   " + (rep + " ")) == rep + " " + (rep + " ")
  {
    var tail := rep + " ";
    CollapseAroundBlank(rep, "   ", tail);
    CollapseSingleSpaced(rep);
    SingleSpacedThenSpace(rep);
    CollapseSingleSpaced(tail);
  }

  lemma CollapseAfterSpace(s: string)
    requires s != [] && !IsWhitespace(s[0])
    ensures CollapseWhitespace(" " + s) == " " + CollapseWhitespace(s)
  {
    assert (" " + s)[1..] == s;
    assert LeadingWhitespace(" " + s) == 1;
  }

  lemma SingleSpacedThenSpace(s: string)
    requires s != [] && SingleSpaced(s) && !IsWhitespace(s[|s| - 1])
    ensures SingleSpaced(s + " ")
  {
    var t := s + " ";
    assert forall i :: 0 <= i < |s| ==> t[i] == s[i];
  }

  /** A whitespace run between two words collapses to one space. */
  lemma CollapseAroundBlank(x: string, w: string, y: string)
    requires x != [] && !IsWhitespace(x[|x| - 1])
    requires w != [] && AllWhitespace(w)
    requires y != [] && !IsWhitespace(y[0])
    ensures CollapseWhitespace(x + w + y) == CollapseWhitespace(x) + " " + CollapseWhitespace(y)
  {
    var t := w + y;
    assert x + w + y == x + t;
    CollapseAppend(x, t);
    LeadingWhitespaceAfterBlank(w, y);
    assert t[|w|..] == y && IsWhitespace(t[0]);
    CollapseAtBlank(t, y, |w|);
    SeqAssoc(CollapseWhitespace(x), " ", CollapseWhitespace(y));
  }

  /**
   * A date followed by a time, such as `01.01.2000 12:15`, becomes two
   * placeholders.
   */
  lemma HideNumbersDateAndTime(date: string, time: string)
    requires IsNumberRun(date) && IsNumberRun(time)
    ensures HideNumbers(date + " " + time, NumberReplacement) == " <num> <num> "
  {
    HideNumbersTwoRunsDefault(date, time);
    assert " " + NumberReplacement + " " + NumberReplacement + " " == " <num> <num> ";
  }

  lemma HideNumbersTwoRunsDefault(date: string, time: string)
    requires IsNumberRun(date) && IsNumberRun(time)
    ensures HideNumbers(date + " " + time, NumberReplacement)
         == " " + NumberReplacement + " " + NumberReplacement + " "
  {
    assert TightToken(NumberReplacement);
    HideNumbersTwoRuns(date, time, NumberReplacement);
  }

  /** The documented date and time are number runs. */
  lemma DocumentedDateAndTime()
    ensures IsNumberRun("01.01.2000") && IsNumberRun("12:15")
    ensures "01.01.2000" + " " + "12:15" == "01.01.2000 12:15"
  {
  }

  // ---------------------------------------------------------------------
  // remove_non_text_characters
  // ---------------------------------------------------------------------

  /**
   * `re.sub` of a one-character class by one character: each character of
   * `chars` becomes `replacement` (line 108: tab, CR and LF become spaces; line 114:
   * `?` and `!` become `.`).
   */
  function ReplaceClass(s: string, chars: string, replacement: char): (r: string)
    ensures |r| == |s|
    ensures forall i :: 0 <= i < |s| ==> r[i] == if s[i] in chars then replacement else s[i]
  {
    seq(|s|, i requires 0 <= i < |s| => if s[i] in chars then replacement else s[i])
  }

  /** Length of the text before the first line feed (`.` does not match `\n`). */
  function LineLength(s: string): (n: nat)
    ensures n <= |s| && '\n' !in s[..n]
    ensures n < |s| ==> s[n] == '\n'
  {
    if s == [] || s[0] == '\n' then 0
    else
      var n := 1 + LineLength(s[1..]);
      assert s[..n] == [s[0]] + s[1..][..n - 1];
      n
  }

  /** Index of the last `c` in `s`. */
  function LastIndexOf(s: string, c: char): (i: nat)
    requires c in s
    ensures i < |s| && s[i] == c
    ensures forall j :: i < j < |s| ==> s[j] != c
  {
    if s[|s| - 1] == c then |s| - 1
    else
      assert c in s[..|s| - 1] by {
        var k :| 0 <= k < |s| && s[k] == c;
        assert s[..|s| - 1][k] == c;
      }
      LastIndexOf(s[..|s| - 1], c)
  }

  /**
   * End (exclusive) of the span a bracket at `s[0]` opens, if any: `{.*\}`
   * from a `{` runs greedily to the last `}` on the same line, and
   * `\[.*\]` likewise from a `[`.
   */
  function BracketSpanEnd(s: string): (e: Option<nat>)
    ensures e.Some? ==> 1 < e.value <= |s|
  {
    if s == [] then None
    else
      var line := s[..LineLength(s)];
      if s[0] == '{' && '}' in line[1..] then Some(LastIndexOf(line, '}') + 1)
      else if s[0] == '[' && ']' in line[1..] then Some(LastIndexOf(line, ']') + 1)
      else None
  }

  /** Line 109: `re.sub("({.*\\})|(\\[.*\\])", '', s)`. */
  function RemoveBracketed(s: string): (r: string)
    ensures forall c :: c in r ==> c in s
    decreases |s|
  {
    if s == [] then ""
    else match BracketSpanEnd(s)
      case Some(e) => RemoveBracketed(s[e..])
      case None => [s[0]] + RemoveBracketed(s[1..])
  }

  /** No `{` is followed by a `}` and no `[` by a `]`. */
  predicate NoBracketPair(r: string)
  {
    forall i, j :: 0 <= i < j < |r| ==> !(r[i] == '{' && r[j] == '}') && !(r[i] == '[' && r[j] == ']')
  }

  /** On one line nothing bracketed is left. */
  lemma {:induction false} RemoveBracketedLeavesNoPair(s: string)
    requires '\n' !in s
    ensures NoBracketPair(RemoveBracketed(s))
    decreases |s|
  {
    if s != [] {
      assert LineLength(s) == |s|;
      assert s[..|s|] == s;
      match BracketSpanEnd(s)
      case Some(e) =>
        assert '\n' !in s[e..] by { assert forall c :: c in s[e..] ==> c in s; }
        RemoveBracketedLeavesNoPair(s[e..]);
      case None =>
        assert '\n' !in s[1..] by { assert forall c :: c in s[1..] ==> c in s; }
        RemoveBracketedLeavesNoPair(s[1..]);
        var rest := RemoveBracketed(s[1..]);
        var r := [s[0]] + rest;
        assert s[..LineLength(s)][1..] == s[1..];
        forall i, j | 0 <= i < j < |r|
          ensures !(r[i] == '{' && r[j] == '}') && !(r[i] == '[' && r[j] == ']')
        {
          assert r[j] == rest[j - 1];
          assert rest[j - 1] in rest;
          if i > 0 {
            assert r[i] == rest[i - 1];
          }
        }
        assert NoBracketPair(r);
    }
  }

  /** Length of the run of `c` at the start of `s`. */
  function RunOf(s: string, c: char): (n: nat)
    ensures n <= |s|
    ensures forall i :: 0 <= i < n ==> s[i] == c
    ensures n < |s| ==> s[n] != c
  {
    if s == [] || s[0] != c then 0 else 1 + RunOf(s[1..], c)
  }

  /** Line 110: `re.sub("(__+|-+|~+|\\++|\\.\\.+|\\:+|\\/)", ' ', s)`. */
  function ReplaceSeparators(s: string): (r: string)
    ensures forall c :: c in r ==> c in s || c == ' '
    ensures forall i :: 0 <= i < |r| ==> r[i] !in "-~+:/"
    ensures forall i, j :: 0 <= i < j < |r| && j == i + 1 ==> !(r[i] == '_' && r[j] == '_') && !(r[i] == '.' && r[j] == '.')
    ensures |r| > 0 && r[0] in "_." ==> |s| > 0 && s[0] == r[0]
    decreases |s|
  {
    if s == [] then ""
    else if |s| >= 2 && s[0] == '_' && s[1] == '_' then " " + ReplaceSeparators(s[RunOf(s, '_')..])
    else if s[0] in "-~+:" then " " + ReplaceSeparators(s[RunOf(s, s[0])..])
    else if |s| >= 2 && s[0] == '.' && s[1] == '.' then " " + ReplaceSeparators(s[RunOf(s, '.')..])
    else if s[0] == '/' then " " + ReplaceSeparators(s[1..])
    else [s[0]] + ReplaceSeparators(s[1..])
  }

  /** The character class deleted at lines 112-113 (40 characters). */
  const Denylist: string :=
    "!\"#$%&'()*,-;<>@[\\]^`|~"
    + "\U{00A9}\U{00F8}\U{2013}\U{2014}\U{2015}\U{2018}\U{2019}\U{201A}\U{201B}"
    + "\U{201C}\U{201D}\U{201E}\U{201F}\U{2030}\U{2036}\U{204B}\U{204F}"

  /** Lines 112-113: every denylisted character is deleted. */
  function DeleteDenylisted(s: string): (r: string)
    ensures forall c :: c in r ==> c in s && c !in Denylist
  {
    if s == [] then ""
    else if s[0] in Denylist then DeleteDenylisted(s[1..])
    else [s[0]] + DeleteDenylisted(s[1..])
  }

  /** No character of `s` is one of `bad`. */
  predicate Avoids(s: string, bad: string)
  {
    forall i :: 0 <= i < |s| ==> s[i] !in bad
  }

  /** `CleanUtils.remove_non_text_characters`: the six substitutions in their order. */
  function RemoveNonTextCharacters(text: string): string
  {
    var s4 := CollapseWhitespace(ReplaceSeparators(RemoveBracketed(ReplaceClass(text, "\t\r\n", ' '))));
    ReplaceClass(DeleteDenylisted(s4), "?!", '.')
  }

  /** The first four steps leave no line break and no `:`, `/` or `+`. */
  lemma SeparatorsGone(text: string)
    ensures Avoids(CollapseWhitespace(ReplaceSeparators(RemoveBracketed(ReplaceClass(text, "\t\r\n", ' ')))), "\t\r\n:/+")
  {
    var s1 := ReplaceClass(text, "\t\r\n", ' ');
    var s2 := RemoveBracketed(s1);
    assert Avoids(s2, "\t\r\n") by {
      forall i | 0 <= i < |s2| ensures s2[i] !in "\t\r\n" {
        assert s2[i] in s1;
      }
    }
    var s3 := ReplaceSeparators(s2);
    assert Avoids(s3, "\t\r\n:/+") by {
      forall i | 0 <= i < |s3| ensures s3[i] !in "\t\r\n:/+" {
        assert s3[i] in s3;
      }
    }
    var s4 := CollapseWhitespace(s3);
    CollapseWhitespaceShape(s3);
    forall i | 0 <= i < |s4| ensures s4[i] !in "\t\r\n:/+" {
      if !IsWhitespace(s4[i]) {
        assert s4[i] in s4;
        assert s4[i] in s3;
      }
    }
  }

  /** The last two steps add no forbidden character and remove the denylist and `?`. */
  lemma DenylistGone(s4: string)
    requires Avoids(s4, "\t\r\n:/+")
    ensures Avoids(ReplaceClass(DeleteDenylisted(s4), "?!", '.'), "\t\r\n?:/+")
    ensures Avoids(ReplaceClass(DeleteDenylisted(s4), "?!", '.'), Denylist)
  {
    var s5 := DeleteDenylisted(s4);
    var s6 := ReplaceClass(s5, "?!", '.');
    assert '.' !in Denylist;
    forall i | 0 <= i < |s6| ensures s6[i] !in "\t\r\n?:/+" && s6[i] !in Denylist {
      assert s5[i] in s5;
    }
  }

  /**
   * No tab, CR or LF, no `?`, no separator `:`, `/` or `+` and no
   * denylisted character (which includes `!`) survives.
   */
  lemma RemoveNonTextCharactersOutput(text: string)
    ensures Avoids(RemoveNonTextCharacters(text), "\t\r\n?:/+")
    ensures Avoids(RemoveNonTextCharacters(text), Denylist)
  {
    SeparatorsGone(text);
    DenylistGone(CollapseWhitespace(ReplaceSeparators(RemoveBracketed(ReplaceClass(text, "\t\r\n", ' ')))));
  }

  // ---------------------------------------------------------------------
  // remove_special_characters, remove_characters_for_text
  // ---------------------------------------------------------------------

  /** The default `characters` tuple: the four characters `\xao`. */
  const SpecialCharacters: seq<string> := ["\\xao"]

  /** What the loop of `remove_special_characters` computes. */
  function SpecialCharactersRemoved(text: string, characters: seq<string>): string
    decreases |characters|
  {
    if characters == [] then text
    else
      var next := if Contains(text, characters[0]) then Replace(text, characters[0], " ") else text;
      SpecialCharactersRemoved(next, characters[1..])
  }

  /** `CleanUtils.remove_special_characters`. */
  method RemoveSpecialCharacters(text: string, characters: seq<string>) returns (r: string)
    ensures r == SpecialCharactersRemoved(text, characters)
  {
    r := text;
    for i := 0 to |characters|
      invariant SpecialCharactersRemoved(r, characters[i..]) == SpecialCharactersRemoved(text, characters)
    {
      assert characters[i..][1..] == characters[i + 1..];
      if Contains(r, characters[i]) {
        r := Replace(r, characters[i], " ");
      }
    }
    assert characters[|characters|..] == [];
  }

  /**
   * With the default tuple no `\xao` is left, and a text without it comes
   * back unchanged.
   */
  lemma SpecialCharactersRemovedDefault(text: string)
    ensures !Contains(SpecialCharactersRemoved(text, SpecialCharacters), "\\xao")
    ensures !Contains(text, "\\xao") ==> SpecialCharactersRemoved(text, SpecialCharacters) == text
  {
    assert SpecialCharacters[1..] == [];
    if Contains(text, "\\xao") {
      ReplaceRemovesAll(text, "\\xao", ' ');
    }
  }

  /**
   * The guard `if character in text` changes nothing: replacing a
   * non-empty pattern that is absent is the identity.
   */
  lemma GuardIsRedundant(text: string, character: string)
    requires |character| > 0
    ensures (if Contains(text, character) then Replace(text, character, " ") else text)
         == Replace(text, character, " ")
  {
    if !Contains(text, character) {
      ReplaceAbsent(text, character, " ");
    }
  }

  /** What `remove_characters_for_text` computes, given the HTML stripper. */
  function CharactersRemovedForText(text: string, stripHtml: string -> string): string
  {
    RemoveNonTextCharacters(SpecialCharactersRemoved(stripHtml(text), SpecialCharacters))
  }

  /**
   * `CleanUtils.remove_characters_for_text`: HTML stripping, then the
   * special characters, then the non-text characters.
   */
  method RemoveCharactersForText(text: string, stripHtml: string -> string) returns (r: string)
    ensures r == CharactersRemovedForText(text, stripHtml)
    ensures Avoids(r, "\t\r\n?:/+") && Avoids(r, Denylist)
  {
    r := stripHtml(text);
    r := RemoveSpecialCharacters(r, SpecialCharacters);
    RemoveNonTextCharactersOutput(r);
    r := RemoveNonTextCharacters(r);
  }

  // ---------------------------------------------------------------------
  // convert_list_to_text
  // ---------------------------------------------------------------------

  /** The non-empty fragments, in order (`filter(None, ...)` on strings). */
  function NonEmptyFragments(fragments: seq<string>): (kept: seq<string>)
    ensures forall f :: f in kept <==> f in fragments && f != ""
  {
    if fragments == [] then []
    else if fragments[0] == "" then NonEmptyFragments(fragments[1..])
    else [fragments[0]] + NonEmptyFragments(fragments[1..])
  }

  /** `convert_list_to_text` on a list of strings. */
  function JoinFragments(fragments: seq<string>): string
  {
    Join(" ", NonEmptyFragments(fragments))
  }

  /** The truthy items, in order. */
  function TruthyItems(items: seq<Value>): (kept: seq<Value>)
    ensures forall v :: v in kept <==> v in items && Truthy(v)
  {
    if items == [] then []
    else if Truthy(items[0]) then [items[0]] + TruthyItems(items[1..])
    else TruthyItems(items[1..])
  }

  /**
   * `CleanUtils.convert_list_to_text` on a cell: iterating a string yields
   * its characters, iterating `None` fails, and `" ".join` fails on a
   * remaining item that is not a string.
   */
  function ConvertListToText(cell: Value): (r: Result<string>)
    ensures cell.Null? ==> r.Err?
  {
    var items :- match cell
      case Null => Err(TypeError)
      case Str(s) => Ok(Chars(s))
      case List(items) => Ok(items);
    var kept := TruthyItems(items);
    if forall v :: v in kept ==> v.Str? then
      Ok(Join(" ", seq(|kept|, i requires 0 <= i < |kept| => kept[i].s)))
    else Err(TypeError)
  }

  /**
   * On a list of strings the conversion joins exactly the non-empty
   * fragments, in order, with single spaces.
   */
  lemma {:induction false} ConvertListOfStrings(fragments: seq<string>)
    ensures ConvertListToText(StrList(fragments)) == Ok(JoinFragments(fragments))
  {
    var kept := TruthyItems(StrList(fragments).items);
    TruthyStrings(fragments);
    assert seq(|kept|, i requires 0 <= i < |kept| => kept[i].s) == NonEmptyFragments(fragments);
  }

  lemma {:induction false} TruthyStrings(fragments: seq<string>)
    ensures TruthyItems(StrList(fragments).items) == StrList(NonEmptyFragments(fragments)).items
    decreases |fragments|
  {
    if fragments != [] {
      TruthyStrings(fragments[1..]);
      assert StrList(fragments).items[1..] == StrList(fragments[1..]).items;
      if fragments[0] != "" {
        assert StrList(NonEmptyFragments(fragments)).items
            == [Str(fragments[0])] + StrList(NonEmptyFragments(fragments[1..])).items;
      }
    }
  }

  /** All the words of a list of strings, fragment by fragment. */
  function FragmentWords(fragments: seq<string>): seq<string>
  {
    if fragments == [] then [] else Words(fragments[0]) + FragmentWords(fragments[1..])
  }

  /** Words of a space-joined list are the words of its parts. */
  lemma {:induction false} WordsOfJoin(parts: seq<string>)
    ensures Words(Join(" ", parts)) == FragmentWords(parts)
    decreases |parts|
  {
    if |parts| == 1 {
      assert FragmentWords(parts[1..]) == [];
    } else if |parts| > 1 {
      WordsOfJoin(parts[1..]);
      WordsAroundSpace(parts[0], Join(" ", parts[1..]));
    }
  }

  lemma {:induction false} FragmentWordsSkipEmpty(fragments: seq<string>)
    ensures FragmentWords(NonEmptyFragments(fragments)) == FragmentWords(fragments)
    decreases |fragments|
  {
    if fragments != [] {
      FragmentWordsSkipEmpty(fragments[1..]);
      if fragments[0] == "" {
        assert Words("") == [];
      }
    }
  }

  /**
   * `convert_list_to_text` neither merges nor splits words: the words of
   * the joined text are the words of the fragments, in order.
   */
  lemma JoinFragmentsKeepsWords(fragments: seq<string>)
    ensures Words(JoinFragments(fragments)) == FragmentWords(fragments)
  {
    WordsOfJoin(NonEmptyFragments(fragments));
    FragmentWordsSkipEmpty(fragments);
  }

  /** The joined text is empty exactly when every fragment is. */
  lemma {:induction false} JoinFragmentsEmpty(fragments: seq<string>)
    ensures JoinFragments(fragments) == "" <==> forall f :: f in fragments ==> f == ""
  {
    var kept := NonEmptyFragments(fragments);
    if |kept| > 0 {
      assert kept[0] in kept;
      JoinHead(kept);
    }
  }

  lemma JoinHead(parts: seq<string>)
    requires |parts| > 0
    ensures |Join(" ", parts)| >= |parts[0]|
  {
  }
}

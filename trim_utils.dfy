/**
 * Length-based trimming of `TrimUtils` (NLPer/nlper/utils/trim_utils.py).
 * The spaCy pipeline that splits a text into sentences is a parameter
 * `segment`; a sentence's length is its number of tokens.
 */
module TrimUtils {
  import opened Strings
  import opened Wrappers

  /** A spaCy sentence span: its text and its number of tokens (`len(span)`). */
  datatype Sentence = Sentence(text: string, length: nat)

  /** Total number of tokens of a list of sentences. */
  function Total(sentences: seq<Sentence>): nat
  {
    if sentences == [] then 0
    else Total(sentences[..|sentences| - 1]) + sentences[|sentences| - 1].length
  }

  /** A longer prefix never has fewer tokens. */
  lemma {:induction false} TotalMonotone(sentences: seq<Sentence>, i: nat, j: nat)
    requires i <= j <= |sentences|
    ensures Total(sentences[..i]) <= Total(sentences[..j])
    decreases j - i
  {
    if i < j {
      TotalMonotone(sentences, i, j - 1);
      assert sentences[..j][..j - 1] == sentences[..j - 1];
    }
  }

  /**
   * `calculate_cumulative_sentences_lengths` (`np.cumsum`): entry `k` is the
   * number of tokens of the first `k + 1` sentences, so the list never
   * decreases.
   */
  function CumulativeLengths(sentences: seq<Sentence>): (c: seq<int>)
    ensures |c| == |sentences|
    ensures forall k :: 0 <= k < |c| ==> c[k] == Total(sentences[..k + 1])
    ensures forall i, j :: 0 <= i <= j < |c| ==> c[i] <= c[j]
  {
    if sentences == [] then []
    else
      var init := sentences[..|sentences| - 1];
      var c := CumulativeLengths(init) + [Total(sentences)];
      forall k | 0 <= k < |init| ensures c[k] == Total(sentences[..k + 1]) {
        assert init[..k + 1] == sentences[..k + 1];
      }
      assert sentences[..|sentences|] == sentences;
      forall i, j | 0 <= i <= j < |c| ensures c[i] <= c[j] {
        TotalMonotone(sentences, i + 1, j + 1);
      }
      c
  }

  /** Index of the first entry above `threshold`, if any. */
  function FirstAbove(lengths: seq<int>, threshold: int): (i: Option<nat>)
    ensures i.Some? ==> i.value < |lengths| && lengths[i.value] > threshold
    ensures i.Some? ==> forall j :: 0 <= j < i.value ==> lengths[j] <= threshold
    ensures i.None? ==> forall j :: 0 <= j < |lengths| ==> lengths[j] <= threshold
  {
    if lengths == [] then None
    else if lengths[0] > threshold then Some(0)
    else match FirstAbove(lengths[1..], threshold)
      case None => None
      case Some(i) => Some(i + 1)
  }

  /**
   * `get_last_sentence_index`: one less than the index of the first length
   * above `threshold`; `list.index(True)` raises `ValueError` when no length
   * is above it.
   */
  function GetLastSentenceIndex(lengths: seq<int>, threshold: int): (r: Result<int>)
    ensures r.Ok? <==> exists j :: 0 <= j < |lengths| && lengths[j] > threshold
    ensures r.Err? ==> r.error == ValueError
    ensures r.Ok? ==> -1 <= r.value < |lengths| - 1 && lengths[r.value + 1] > threshold
    ensures r.Ok? ==> forall j :: 0 <= j <= r.value ==> lengths[j] <= threshold
  {
    match FirstAbove(lengths, threshold)
    case None => Err(ValueError)
    case Some(i) => Ok(i - 1)
  }

  /** Python's slice `sentences[:index]`; a negative index counts from the end. */
  function TrimSentences(sentences: seq<Sentence>, index: int): (r: seq<Sentence>)
    ensures 0 <= index <= |sentences| ==> |r| == index
    ensures -|sentences| <= index < 0 ==> |r| == |sentences| + index
    ensures |r| <= |sentences| && r == sentences[..|r|]
  {
    if index >= 0 then sentences[..if index <= |sentences| then index else |sentences|]
    else sentences[..if |sentences| + index >= 0 then |sentences| + index else 0]
  }

  /** `join_sentences`: the sentence texts separated by single spaces. */
  function JoinSentences(sentences: seq<Sentence>): string
  {
    Join(" ", seq(|sentences|, i requires 0 <= i < |sentences| => sentences[i].text))
  }

  /**
   * `trim_text_to_upper_length_threshold`. A text with no sentence fails
   * on `sentences_lengths[-1]`; otherwise the result joins a prefix of
   * the sentences.
   */
  function TrimTextToUpperLengthThreshold(segment: string -> seq<Sentence>, text: string, threshold: int)
    : (r: Result<string>)
    ensures r.Err? <==> segment(text) == []
    ensures r.Err? ==> r.error == IndexError
    ensures r.Ok? ==> exists k :: 0 <= k <= |segment(text)| && r.value == JoinSentences(segment(text)[..k])
  {
    var sentences := segment(text);
    if sentences == [] then Err(IndexError)
    else
      var lengths := CumulativeLengths(sentences);
      if lengths[|lengths| - 1] <= threshold then
        assert sentences[..|sentences|] == sentences;
        Ok(JoinSentences(sentences))
      else
        assert lengths[|lengths| - 1] > threshold;
        var index := GetLastSentenceIndex(lengths, threshold).value;
        var kept := TrimSentences(sentences, index);
        Ok(JoinSentences(kept))
  }

  /** A text within the threshold is kept whole. */
  lemma UpperTrimKeepsShortText(segment: string -> seq<Sentence>, text: string, threshold: int)
    requires segment(text) != [] && Total(segment(text)) <= threshold
    ensures TrimTextToUpperLengthThreshold(segment, text, threshold) == Ok(JoinSentences(segment(text)))
  {
    var sentences := segment(text);
    assert sentences[..|sentences|] == sentences;
  }

  /**
   * When the first sentence fits but the whole text does not, `m`
   * sentences are kept: they fit, so does the next one, and the one after
   * it does not. The `- 1` at line 84 thus drops one sentence more than
   * the threshold requires.
   */
  lemma UpperTrimWhenFirstSentenceFits(segment: string -> seq<Sentence>, text: string, threshold: int)
    returns (m: nat)
    requires segment(text) != [] && Total(segment(text)) > threshold
    requires Total(segment(text)[..1]) <= threshold
    ensures m + 2 <= |segment(text)|
    ensures TrimTextToUpperLengthThreshold(segment, text, threshold) == Ok(JoinSentences(segment(text)[..m]))
    ensures Total(segment(text)[..m]) <= threshold
    ensures Total(segment(text)[..m + 1]) <= threshold
    ensures Total(segment(text)[..m + 2]) > threshold
  {
    var sentences := segment(text);
    var lengths := CumulativeLengths(sentences);
    assert sentences[..|sentences|] == sentences;
    assert lengths[|lengths| - 1] > threshold;
    var i := FirstAbove(lengths, threshold).value;
    assert i >= 1;
    m := i - 1;
    assert lengths[m] <= threshold;
    TotalMonotone(sentences, m, m + 1);
  }

  /**
   * When the first sentence alone exceeds the threshold, the index is -1
   * and the slice drops only the last sentence.
   */
  lemma UpperTrimWhenFirstSentenceTooLong(segment: string -> seq<Sentence>, text: string, threshold: int)
    requires |segment(text)| > 0 && Total(segment(text)[..1]) > threshold
    ensures TrimTextToUpperLengthThreshold(segment, text, threshold)
         == Ok(JoinSentences(segment(text)[..|segment(text)| - 1]))
  {
    var sentences := segment(text);
    var lengths := CumulativeLengths(sentences);
    assert sentences[..|sentences|] == sentences;
    assert lengths[|lengths| - 1] >= lengths[0];
  }

  /**
   * The kept text can be longer than the threshold: three sentences of
   * 20, 1 and 1 tokens under a threshold of 10 keep the first two, 21
   * tokens.
   */
  lemma UpperTrimCanExceedThreshold()
    ensures TrimTextToUpperLengthThreshold(ThreeSentences, "abc", 10) == Ok("a b")
    ensures Total(ThreeSentences("abc")[..2]) == 21
  {
    var sentences := ThreeSentences("abc");
    UpperTrimWhenFirstSentenceTooLong(ThreeSentences, "abc", 10);
    assert sentences[..2] == [Sentence("a", 20), Sentence("b", 1)];
    assert sentences[..2][..1] == [Sentence("a", 20)];
    assert sentences[..1] == [Sentence("a", 20)];
    var kept := sentences[..2];
    assert seq(|kept|, i requires 0 <= i < |kept| => kept[i].text) == ["a", "b"];
    assert ["a", "b"][1..] == ["b"];
    assert Join(" ", ["a", "b"]) == "a b";
    assert JoinSentences(sentences[..|sentences| - 1]) == "a b";
  }

  /** A segmentation into sentences of 20, 1 and 1 tokens. */
  function ThreeSentences(text: string): seq<Sentence>
  {
    [Sentence("a", 20), Sentence("b", 1), Sentence("c", 1)]
  }

  /**
   * The number of leading sentences that fit within `threshold`: every
   * longer prefix has more tokens than the threshold allows.
   */
  function LongestFittingPrefix(sentences: seq<Sentence>, threshold: int): (k: nat)
    ensures k <= |sentences|
    ensures k > 0 || threshold >= 0 ==> Total(sentences[..k]) <= threshold
    ensures forall j :: k < j <= |sentences| ==> Total(sentences[..j]) > threshold
  {
    var lengths := CumulativeLengths(sentences);
    match FirstAbove(lengths, threshold)
    case None =>
      assert sentences[..|sentences|] == sentences;
      assert sentences != [] ==> lengths[|sentences| - 1] <= threshold;
      |sentences|
    case Some(i) =>
      assert i > 0 ==> lengths[i - 1] <= threshold;
      forall j | i < j <= |sentences| ensures Total(sentences[..j]) > threshold {
        assert lengths[j - 1] >= lengths[i];
      }
      i
  }

  /**
   * `trim_text_to_upper_length_threshold` as its docstring describes it:
   * the last sentences are removed until the rest fits. This is the code
   * with the `- 1` of line 84 left out, so the slice ends at the first
   * sentence that does not fit.
   */
  function TrimToUpperThreshold(segment: string -> seq<Sentence>, text: string, threshold: int)
    : (r: Result<string>)
    ensures r.Err? <==> segment(text) == []
    ensures r.Err? ==> r.error == IndexError
    ensures r.Ok? ==> r.value == JoinSentences(segment(text)[..LongestFittingPrefix(segment(text), threshold)])
  {
    var sentences := segment(text);
    if sentences == [] then Err(IndexError)
    else
      var lengths := CumulativeLengths(sentences);
      if lengths[|lengths| - 1] <= threshold then
        assert sentences[..|sentences|] == sentences;
        Ok(JoinSentences(sentences))
      else
        var index := FirstAbove(lengths, threshold).value;
        Ok(JoinSentences(TrimSentences(sentences, index)))
  }

  /**
   * Where the first sentence fits but the whole text does not, the code
   * keeps one sentence fewer than the longest prefix that fits, which the
   * corrected trim keeps.
   */
  lemma UpperTrimDropsFittingSentence(segment: string -> seq<Sentence>, text: string, threshold: int)
    requires segment(text) != [] && Total(segment(text)) > threshold
    requires Total(segment(text)[..1]) <= threshold
    ensures LongestFittingPrefix(segment(text), threshold) >= 1
    ensures TrimTextToUpperLengthThreshold(segment, text, threshold)
         == Ok(JoinSentences(segment(text)[..LongestFittingPrefix(segment(text), threshold) - 1]))
    ensures TrimToUpperThreshold(segment, text, threshold)
         == Ok(JoinSentences(segment(text)[..LongestFittingPrefix(segment(text), threshold)]))
  {
    var sentences := segment(text);
    var m := UpperTrimWhenFirstSentenceFits(segment, text, threshold);
    var k := LongestFittingPrefix(sentences, threshold);
    assert k == m + 1;
  }

  /**
   * Where the first sentence alone is over the threshold, the code keeps
   * every sentence but the last, over the threshold, while the corrected
   * trim keeps nothing.
   */
  lemma UpperTrimOverflows(segment: string -> seq<Sentence>, text: string, threshold: int)
    requires |segment(text)| >= 2 && Total(segment(text)[..1]) > threshold
    ensures TrimTextToUpperLengthThreshold(segment, text, threshold)
         == Ok(JoinSentences(segment(text)[..|segment(text)| - 1]))
    ensures Total(segment(text)[..|segment(text)| - 1]) > threshold
    ensures TrimToUpperThreshold(segment, text, threshold) == Ok("")
  {
    var sentences := segment(text);
    UpperTrimWhenFirstSentenceTooLong(segment, text, threshold);
    TotalMonotone(sentences, 1, |sentences| - 1);
    assert LongestFittingPrefix(sentences, threshold) == 0;
    assert JoinSentences(sentences[..0]) == "";
  }

  /** `remove_text_below_lower_length_threshold(threshold)` applied to `x`. */
  predicate AboveLowerThreshold(threshold: int, x: string)
  {
    threshold < |Words(Strip(x))|
  }

  /**
   * The filter keeps a text exactly when it has more words than the
   * threshold (stripping first changes no word), so raising the threshold
   * never keeps more.
   */
  lemma AboveLowerThresholdCountsWords(threshold: int, x: string)
    ensures AboveLowerThreshold(threshold, x) <==> threshold < |Words(x)|
    ensures forall t :: t <= threshold && AboveLowerThreshold(threshold, x) ==> AboveLowerThreshold(t, x)
  {
    WordsOfStrip(x);
  }
}

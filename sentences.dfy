/** `cut_sentence` of utils.py: a rule-based sentence splitter over the
    whitespace-separated words of a text. */
module SentenceSplit {
  import opened PyStr

  /** The titles after whose abbreviation a full stop does not end a
      sentence (the list includes the spelling "Governer"). */
  const ExceptionRule: seq<string> := [
    "Mr", "Mrs", "Miss", "Ms", "Sir", "Madam", "Dr", "Cllr", "Lady", "Lord",
    "Professor", "Prof", "Chancellor", "Principal", "President", "Master",
    "Governer", "Gov", "Attorney", "Atty"]

  /** The word ends in `.`, `?` or `!`. */
  predicate EndsWithTerminal(w: string) {
    |w| > 0 && w[|w| - 1] in ['.', '?', '!']
  }

  /** A sentence ends after word `i`: it is the last word, or it ends in a
      terminal mark, is not a listed title and the next word starts with a
      capital. */
  predicate IsBreak(words: seq<string>, i: nat)
    requires i < |words|
  {
    || i == |words| - 1
    || (&& EndsWithTerminal(words[i])
        && words[i][..|words[i]| - 1] !in ExceptionRule
        && |words[i + 1]| > 0
        && IsUpper(words[i + 1][0]))
  }

  /** The sentences still to be emitted when the current sentence started at
      word `last` and word `i` is the next to look at. */
  function SentencesFrom(words: seq<string>, last: nat, i: nat): seq<string>
    requires last <= i <= |words|
    decreases |words| - i
  {
    if i == |words| then []
    else if IsBreak(words, i) then [Join(words[last..i + 1])] + SentencesFrom(words, i + 1, i + 1)
    else SentencesFrom(words, last, i + 1)
  }

  /** The sentences of a word list. */
  function Sentences(words: seq<string>): seq<string> {
    SentencesFrom(words, 0, 0)
  }

  /** The positions just after a break, looking from word `i` on: where
      each sentence ends. */
  function EndsFrom(words: seq<string>, i: nat): (r: seq<int>)
    requires i <= |words|
    ensures forall a :: 0 <= a < |r| ==> i < r[a] <= |words|
    decreases |words| - i
  {
    if i == |words| then []
    else if IsBreak(words, i) then [i + 1] + EndsFrom(words, i + 1)
    else EndsFrom(words, i + 1)
  }

  /** A sentence ends only just after a break. */
  lemma {:induction false} EndsAreBreaks(words: seq<string>, i: nat)
    requires i <= |words|
    ensures forall a :: 0 <= a < |EndsFrom(words, i)| ==> IsBreak(words, EndsFrom(words, i)[a] - 1)
    decreases |words| - i
  {
    if i < |words| {
      EndsAreBreaks(words, i + 1);
    }
  }

  /** Every break ends a sentence. */
  lemma {:induction false} BreaksAreEnds(words: seq<string>, i: nat, j: nat)
    requires i <= j < |words| && IsBreak(words, j)
    ensures j + 1 in EndsFrom(words, i)
    decreases |words| - i
  {
    if i < j {
      BreaksAreEnds(words, i + 1, j);
    }
  }

  /** The sentence ends are strictly increasing. */
  lemma {:induction false} EndsIncreasing(words: seq<string>, i: nat)
    requires i <= |words|
    ensures forall a, b :: 0 <= a < b < |EndsFrom(words, i)| ==> EndsFrom(words, i)[a] < EndsFrom(words, i)[b]
    decreases |words| - i
  {
    if i < |words| {
      EndsIncreasing(words, i + 1);
      var rest := EndsFrom(words, i + 1);
      if IsBreak(words, i) {
        var r := [i + 1] + rest;
        assert forall a :: 1 <= a < |r| ==> r[a] == rest[a - 1];
      }
    }
  }

  /** A text with words has at least one sentence end, and the last one is
      the end of the text. */
  lemma {:induction false} EndsAtEnd(words: seq<string>, i: nat)
    requires i < |words|
    ensures |EndsFrom(words, i)| > 0 && EndsFrom(words, i)[|EndsFrom(words, i)| - 1] == |words|
    decreases |words| - i
  {
    if i + 1 < |words| {
      EndsAtEnd(words, i + 1);
    }
  }

  /** `cut_sentence(talk_content)`. */
  method CutSentence(talkContent: string) returns (talkSentences: seq<string>)
    ensures talkSentences == Sentences(Split(talkContent))
  {
    var talkWords := Split(talkContent);
    assert forall k :: 0 <= k < |talkWords| ==> talkWords[k] in talkWords;
    talkSentences := CutWords(talkWords);
  }

  /** The loop of `cut_sentence` over the words of the text. */
  method CutWords(talkWords: seq<string>) returns (talkSentences: seq<string>)
    requires forall k :: 0 <= k < |talkWords| ==> |talkWords[k]| > 0
    ensures talkSentences == Sentences(talkWords)
  {
    talkSentences := [];
    var lastSentenceIdx := 0;
    var w := 0;
    while w < |talkWords|
      invariant 0 <= lastSentenceIdx <= w <= |talkWords|
      invariant talkSentences + SentencesFrom(talkWords, lastSentenceIdx, w) == Sentences(talkWords)
    {
      var talkWord := talkWords[w];
      if w == |talkWords| - 1 {
        talkSentences := talkSentences + [Join(talkWords[lastSentenceIdx..w + 1])];
      } else {
        if talkWord[|talkWord| - 1] in ['.', '?', '!'] {
          if talkWord[..|talkWord| - 1] !in ExceptionRule {
            if IsUpper(talkWords[w + 1][0]) {
              talkSentences := talkSentences + [Join(talkWords[lastSentenceIdx..w + 1])];
              lastSentenceIdx := w + 1;
            }
          }
        }
      }
      w := w + 1;
    }
  }

  /** The start of sentence `k` when the first sentence starts at `last`. */
  function StartOf(ends: seq<int>, last: nat, k: nat): int
    requires k < |ends|
  {
    if k == 0 then last else ends[k - 1]
  }

  /** `ss[k]` is the space-join of the words from the start of sentence `k`
      to its end `es[k]`, for every `k`. */
  predicate Segmented(words: seq<string>, ss: seq<string>, es: seq<int>, last: nat) {
    && |ss| == |es|
    && forall k {:trigger ss[k]} :: 0 <= k < |es| ==>
      && 0 <= StartOf(es, last, k) <= es[k] <= |words|
      && ss[k] == Join(words[StartOf(es, last, k)..es[k]])
  }

  /** Putting one more sentence, ending at `i + 1`, in front of a
      segmentation that starts at `i + 1`. */
  lemma SegmentedCons(words: seq<string>, ss: seq<string>, es: seq<int>, last: nat, i: nat)
    requires last <= i < |words|
    requires Segmented(words, ss, es, i + 1)
    ensures Segmented(words, [Join(words[last..i + 1])] + ss, [i + 1] + es, last)
  {
    var ss', es' := [Join(words[last..i + 1])] + ss, [i + 1] + es;
    assert |ss'| == |es'|;
    forall k | 0 <= k < |es'|
      ensures 0 <= StartOf(es', last, k) <= es'[k] <= |words|
      ensures ss'[k] == Join(words[StartOf(es', last, k)..es'[k]])
    {
      if k > 0 {
        assert ss'[k] == ss[k - 1];
        assert es'[k] == es[k - 1];
        assert StartOf(es', last, k) == StartOf(es, i + 1, k - 1);
      }
    }
  }

  /** Each sentence is the space-join of the words from the end of the
      previous sentence (or from `last`) up to the next break. */
  lemma {:induction false} SentencesAreSegments(words: seq<string>, last: nat, i: nat)
    requires last <= i <= |words|
    ensures Segmented(words, SentencesFrom(words, last, i), EndsFrom(words, i), last)
    decreases |words| - i
  {
    if i < |words| {
      if IsBreak(words, i) {
        SentencesAreSegments(words, i + 1, i + 1);
        SegmentedCons(words, SentencesFrom(words, i + 1, i + 1), EndsFrom(words, i + 1), last, i);
      } else {
        SentencesAreSegments(words, last, i + 1);
      }
    }
  }

  /** Splitting the sentences again gives back the words from `last` on,
      in order, none lost and none repeated. */
  lemma {:induction false} SentencesCover(words: seq<string>, last: nat, i: nat)
    requires last <= i <= |words|
    requires forall k :: 0 <= k < |words| ==> IsWord(words[k])
    requires forall j :: last <= j < i ==> !IsBreak(words, j)
    ensures SplitAll(SentencesFrom(words, last, i)) == words[last..]
    decreases |words| - i
  {
    if i == |words| {
      if last < i {
        assert IsBreak(words, |words| - 1);
      }
    } else if IsBreak(words, i) {
      var segment := words[last..i + 1];
      assert forall k :: 0 <= k < |segment| ==> IsWord(segment[k]) by {
        forall k | 0 <= k < |segment| ensures IsWord(segment[k]) {
          assert segment[k] == words[last + k];
        }
      }
      SplitJoin(segment);
      SentencesCover(words, i + 1, i + 1);
      SplitAllCons(Join(segment), SentencesFrom(words, i + 1, i + 1));
      SliceJoin(words, last, i + 1);
    } else {
      SentencesCover(words, last, i + 1);
    }
  }

  /** A text with words gives at least one sentence, and no sentence is
      empty. */
  lemma {:induction false} SentencesNonEmpty(words: seq<string>, last: nat, i: nat)
    requires last <= i <= |words|
    requires forall k :: 0 <= k < |words| ==> IsWord(words[k])
    ensures i < |words| ==> |SentencesFrom(words, last, i)| > 0
    ensures forall s :: s in SentencesFrom(words, last, i) ==> |s| > 0
    decreases |words| - i
  {
    if i < |words| {
      if IsBreak(words, i) {
        SentencesNonEmpty(words, i + 1, i + 1);
        assert words[last..i + 1][0] == words[last];
      } else {
        SentencesNonEmpty(words, last, i + 1);
      }
    }
  }

  /** What `cut_sentence` promises about a whole text: it loses and repeats
      no word, it yields a sentence whenever the text has a word, every
      sentence is non-empty, and each is the space-join of the words between
      two consecutive ends, each end just after a break. */
  lemma CutSentenceFacts(text: string)
    ensures SplitAll(Sentences(Split(text))) == Split(text)
    ensures |Split(text)| > 0 ==> |Sentences(Split(text))| > 0
    ensures forall s :: s in Sentences(Split(text)) ==> |s| > 0
    ensures Segmented(Split(text), Sentences(Split(text)), EndsFrom(Split(text), 0), 0)
    ensures forall a :: 0 <= a < |EndsFrom(Split(text), 0)| ==> IsBreak(Split(text), EndsFrom(Split(text), 0)[a] - 1)
  {
    var words := Split(text);
    assert forall k :: 0 <= k < |words| ==> IsWord(words[k]) by {
      forall k | 0 <= k < |words| ensures IsWord(words[k]) {
        assert words[k] in words;
      }
    }
    SentencesCover(words, 0, 0);
    assert words[0..] == words;
    SentencesNonEmpty(words, 0, 0);
    SentencesAreSegments(words, 0, 0);
    EndsAreBreaks(words, 0);
  }
}

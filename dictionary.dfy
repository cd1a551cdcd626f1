/** `load_dicts` of utils.py, over dictionary files that have already been
    read: each file is given as the list of its lines. */
module Dictionary {
  import opened PyStr
  import opened Matcher

  /** The phrase a dictionary line gives: `line.strip().lower().split()`.
      Every token is a word with no ASCII capital, and a line gives the empty
      phrase exactly when it is blank (blank lines are kept, not filtered out). */
  function LineToPhrase(line: string): (r: Phrase)
    ensures forall t :: t in r ==> IsWord(t) && forall c :: c in t ==> !IsUpper(c)
    ensures r == [] <==> AllSpace(line)
  {
    var stripped := Strip(line);
    SplitEmptyIff(Lower(stripped));
    LowerAllSpace(stripped);
    StripEmptyIff(line);
    Split(Lower(stripped))
  }

  /** The tokens of a phrase are words without ASCII capitals. */
  predicate CapitalFree(p: Phrase) {
    forall k :: 0 <= k < |p| ==> IsWord(p[k]) && forall c :: c in p[k] ==> !IsUpper(c)
  }

  /** The line a capital-free phrase is written as is already stripped. */
  lemma JoinStripped(p: Phrase)
    requires CapitalFree(p)
    ensures Strip(Join(p)) == Join(p)
  {
    if |p| > 0 {
      JoinLast(p);
    }
    StripTrimmed(Join(p));
  }

  /** The line a capital-free phrase is written as is already lower case. */
  lemma JoinLowered(p: Phrase)
    requires CapitalFree(p)
    ensures Lower(Join(p)) == Join(p)
  {
    var line := Join(p);
    forall c | c in line
      ensures !IsUpper(c)
    {
      if c != ' ' {
        var k :| 0 <= k < |p| && c in p[k];
      }
    }
    LowerNoCapital(line);
  }

  /** A phrase of capital-free words, written on a line separated by single
      spaces, loads back as the same phrase, so it matches the same texts. */
  lemma LoaderRoundTrip(p: Phrase)
    requires CapitalFree(p)
    ensures LineToPhrase(Join(p)) == p
  {
    JoinStripped(p);
    JoinLowered(p);
    SplitJoin(p);
  }

  /** The comprehension `[phrase.strip().lower() for phrase in lines]`. */
  function NormalizeLines(lines: seq<string>): (r: seq<string>)
    ensures |r| == |lines|
  {
    if |lines| == 0 then [] else [Lower(Strip(lines[0]))] + NormalizeLines(lines[1..])
  }

  /** Line `k` of the result is line `k` of the input, normalized. */
  lemma {:induction false} NormalizeLinesAt(lines: seq<string>, k: nat)
    requires k < |lines|
    ensures NormalizeLines(lines)[k] == Lower(Strip(lines[k]))
  {
    if k > 0 {
      NormalizeLinesAt(lines[1..], k - 1);
    }
  }

  /** Normalizing works line by line, so it distributes over `+`. */
  lemma {:induction false} NormalizeLinesAppend(xs: seq<string>, ys: seq<string>)
    ensures NormalizeLines(xs + ys) == NormalizeLines(xs) + NormalizeLines(ys)
  {
    if |xs| == 0 {
      assert xs + ys == ys;
    } else {
      assert (xs + ys)[1..] == xs[1..] + ys;
      NormalizeLinesAppend(xs[1..], ys);
    }
  }

  /** `load_dicts`: one phrase per line, files in the given order and lines
      in file order. */
  method LoadDicts(files: seq<seq<string>>) returns (phrases: seq<Phrase>)
    ensures |phrases| == |Concat(files)|
    ensures forall k :: 0 <= k < |phrases| ==> phrases[k] == LineToPhrase(Concat(files)[k])
  {
    var dictPhrases: seq<string> := [];
    var f := 0;
    while f < |files|
      invariant 0 <= f <= |files|
      invariant dictPhrases == NormalizeLines(Concat(files[..f]))
    {
      var lines := files[f];
      ghost var before := Concat(files[..f]);
      dictPhrases := dictPhrases + NormalizeLines(lines);
      TakeSnoc(files, f);
      ConcatAppend(files[..f], lines);
      NormalizeLinesAppend(before, lines);
      f := f + 1;
    }
    assert files[..|files|] == files;
    phrases := seq(|dictPhrases|, k requires 0 <= k < |dictPhrases| => Split(dictPhrases[k]));
    forall k | 0 <= k < |phrases|
      ensures phrases[k] == LineToPhrase(Concat(files)[k])
    {
      NormalizeLinesAt(Concat(files), k);
    }
  }
}

/** `phrase_in_text` of utils.py: does any dictionary phrase occur in a text?
    A phrase is a list of tokens; a token holding `*` is a wildcard that
    matches any word starting with the text before its first `*`. */
module Matcher {
  import opened PyStr
  import opened Preprocess

  type Phrase = seq<string>

  /** `token.split("*")[0]`: the part of a token before its first `*`. */
  function Stem(token: string): (r: string)
    ensures r <= token && '*' !in r
    ensures '*' in token ==> |r| < |token| && token[|r|] == '*'
    ensures '*' !in token ==> r == token
  {
    if |token| == 0 || token[0] == '*' then "" else [token[0]] + Stem(token[1..])
  }

  /** Python's slice `s[:n]` for `n >= 0`, which stops at the end of `s`. */
  function Take(s: string, n: nat): string {
    if n <= |s| then s[..n] else s
  }

  /** How one phrase token is compared with one document token. */
  predicate TokenMatches(p: string, w: string) {
    if '*' in p then Stem(p) <= w else p == w
  }

  /** The phrase lies on the tokens starting at position `i`, with no token
      beyond the end of the text. */
  predicate MatchesAt(phrase: Phrase, ts: seq<string>, i: nat) {
    && i + |phrase| <= |ts|
    && forall j :: 0 <= j < |phrase| ==> TokenMatches(phrase[j], ts[i + j])
  }

  /** The window rule: the phrase lies on the tokens at some start position
      of the text. */
  predicate WindowMatches(phrase: Phrase, ts: seq<string>) {
    exists i: nat :: i < |ts| && MatchesAt(phrase, ts, i)
  }

  /** The rule for a one-token phrase: a literal must be a document token, a
      wildcard's stem must begin some document token. */
  predicate SingleMatches(kw: string, ts: seq<string>) {
    if '*' !in kw then kw in ts else exists t :: t in ts && Stem(kw) <= t
  }

  predicate PhraseMatches(phrase: Phrase, ts: seq<string>) {
    if |phrase| == 1 then SingleMatches(phrase[0], ts) else WindowMatches(phrase, ts)
  }

  predicate AnyMatches(phrases: seq<Phrase>, ts: seq<string>) {
    exists k :: 0 <= k < |phrases| && PhraseMatches(phrases[k], ts)
  }

  /** `dict(Counter(ts))`: every distinct token with its number of occurrences. */
  function CountTokens(ts: seq<string>): map<string, nat> {
    map t | t in ts :: multiset(ts)[t]
  }

  /** The keys of `Counter(ts)` in insertion order: each distinct token once,
      at its first occurrence. */
  function Distinct(ts: seq<string>): (r: seq<string>)
    ensures forall t :: t in r <==> t in ts
    ensures forall i, j :: 0 <= i < j < |r| ==> r[i] != r[j]
  {
    if |ts| == 0 then []
    else
      var d := Distinct(ts[..|ts| - 1]);
      assert ts == ts[..|ts| - 1] + [ts[|ts| - 1]];
      if ts[|ts| - 1] in d then d else d + [ts[|ts| - 1]]
  }

  /** `key[:len(kw)] == kw` holds exactly when `kw` is a prefix of `key`. */
  lemma TakePrefix(key: string, kw: string)
    ensures Take(key, |kw|) == kw <==> kw <= key
  {
  }

  /** The inner loop of the window branch of `phrase_in_text`: `flag` stays
      true exactly when every phrase token matches the document token at its
      offset from `w`, a position past the end failing. */
  method PhraseAt(phrase: Phrase, textWords: seq<string>, w: nat) returns (flag: bool)
    requires w < |textWords|
    ensures flag <==> MatchesAt(phrase, textWords, w)
  {
    flag := true;
    var j := 0;
    while j < |phrase|
      invariant 0 <= j <= |phrase|
      invariant w + j <= |textWords|
      invariant forall m :: 0 <= m < j ==> TokenMatches(phrase[m], textWords[w + m])
    {
      var pw := phrase[j];
      if '*' !in pw {
        if w + j >= |textWords| || pw != textWords[w + j] {
          flag := false;
          break;
        }
      } else {
        pw := Stem(pw);
        if w + j < |textWords| {
          TakePrefix(textWords[w + j], pw);
        }
        if w + j >= |textWords| || pw != Take(textWords[w + j], |pw|) {
          flag := false;
          break;
        }
      }
      j := j + 1;
    }
  }

  /** The loop `for key in counter_keys` of the wildcard branch: true
      exactly when `stem` begins one of the keys. */
  method SomeKeyStartsWith(counterKeys: seq<string>, stem: string) returns (found: bool)
    ensures found <==> exists j :: 0 <= j < |counterKeys| && stem <= counterKeys[j]
  {
    var k := 0;
    while k < |counterKeys|
      invariant 0 <= k <= |counterKeys|
      invariant forall j :: 0 <= j < k ==> !(stem <= counterKeys[j])
    {
      var key := counterKeys[k];
      TakePrefix(key, stem);
      if Take(key, |stem|) == stem {
        return true;
      }
      k := k + 1;
    }
    return false;
  }

  /** The loop `for w_i in range(len(text_words))` of the window branch:
      true exactly when the window rule holds. */
  method SomeWindowMatches(phrase: Phrase, textWords: seq<string>) returns (found: bool)
    ensures found <==> WindowMatches(phrase, textWords)
  {
    var w := 0;
    while w < |textWords|
      invariant 0 <= w <= |textWords|
      invariant forall i: nat :: i < w ==> !MatchesAt(phrase, textWords, i)
    {
      var flag := PhraseAt(phrase, textWords, w);
      if flag {
        return flag;
      }
      w := w + 1;
    }
    return false;
  }

  /** `phrase_in_text(dict_phrases, text)`: true exactly when some phrase of
      the list matches the tokens of the preprocessed text. */
  method PhraseInText(dictPhrases: seq<Phrase>, text: string) returns (found: bool)
    ensures found <==> AnyMatches(dictPhrases, PreprocessText(text))
  {
    var textWords := PreprocessText(text);
    found := PhraseInWords(dictPhrases, textWords);
  }

  /** The body of `phrase_in_text` after preprocessing: the loop over the
      phrases, on the token list `textWords`. */
  method PhraseInWords(dictPhrases: seq<Phrase>, textWords: seq<string>) returns (found: bool)
    ensures found <==> AnyMatches(dictPhrases, textWords)
  {
    var wordsCounter := CountTokens(textWords);
    var counterKeys := Distinct(textWords);
    var p := 0;
    while p < |dictPhrases|
      invariant 0 <= p <= |dictPhrases|
      invariant forall k :: 0 <= k < p ==> !PhraseMatches(dictPhrases[k], textWords)
    {
      var phrase := dictPhrases[p];
      if |phrase| == 1 {
        var kw := phrase[0];
        if '*' !in kw {
          if kw in wordsCounter {
            assert PhraseMatches(phrase, textWords);
            return true;
          }
        } else {
          kw := Stem(kw);
          var hit := SomeKeyStartsWith(counterKeys, kw);
          if hit {
            var j :| 0 <= j < |counterKeys| && kw <= counterKeys[j];
            assert counterKeys[j] in textWords;
            assert PhraseMatches(phrase, textWords);
            return true;
          }
          assert forall t :: t in textWords ==> t in counterKeys;
        }
      } else {
        var hit := SomeWindowMatches(phrase, textWords);
        if hit {
          return true;
        }
      }
      assert !PhraseMatches(phrase, textWords);
      p := p + 1;
    }
    return false;
  }

  /** A one-token phrase obeys the window rule for a phrase of length one:
      the single-token branch is a shortcut, not a different semantics. */
  lemma SingleIsWindowOfOne(kw: string, ts: seq<string>)
    ensures SingleMatches(kw, ts) <==> WindowMatches([kw], ts)
  {
    if SingleMatches(kw, ts) {
      var i :| 0 <= i < |ts| && TokenMatches(kw, ts[i]);
      assert MatchesAt([kw], ts, i);
    }
    if WindowMatches([kw], ts) {
      var i: nat :| i < |ts| && MatchesAt([kw], ts, i);
      assert TokenMatches([kw][0], ts[i + 0]);
      assert ts[i] in ts;
    }
  }

  /** Matching is existential over the phrase list, so reordering the list
      changes nothing. */
  lemma OrderIrrelevant(ps: seq<Phrase>, qs: seq<Phrase>, ts: seq<string>)
    requires multiset(ps) == multiset(qs)
    ensures AnyMatches(ps, ts) <==> AnyMatches(qs, ts)
  {
    forall xs, ys: seq<Phrase> | multiset(xs) == multiset(ys) && AnyMatches(xs, ts)
      ensures AnyMatches(ys, ts)
    {
      var k :| 0 <= k < |xs| && PhraseMatches(xs[k], ts);
      assert xs[k] in multiset(ys);
      var l :| 0 <= l < |ys| && ys[l] == xs[k];
    }
  }

  /** An empty phrase list never matches. */
  lemma NoPhrasesNoMatch(ts: seq<string>)
    ensures !AnyMatches([], ts)
  {
  }

  /** A text without tokens matches no phrase. */
  lemma NoTokensNoMatch(ps: seq<Phrase>)
    ensures !AnyMatches(ps, [])
  {
  }

  /** The empty phrase of a blank dictionary line matches vacuously whenever
      the text has a token, and never otherwise. */
  lemma EmptyPhraseMatches(ts: seq<string>)
    ensures PhraseMatches([], ts) <==> |ts| > 0
  {
    if |ts| > 0 {
      assert MatchesAt([], ts, 0);
    }
  }

  /** A wildcard token compares only the text before its first `*`; what
      follows that `*` is ignored. */
  lemma WildcardIgnoresTail(stem: string, tail: string, w: string)
    requires '*' !in stem
    ensures TokenMatches(stem + "*" + tail, w) <==> stem <= w
  {
    var token := stem + "*" + tail;
    assert token[|stem|] == '*';
    assert Stem(token) == stem;
  }

  /** An empty text is labelled negative whatever the dictionary. */
  lemma EmptyTextNoMatch(ps: seq<Phrase>)
    ensures !AnyMatches(ps, PreprocessText(""))
  {
    BlankTextNoTokens("");
  }

  /** A multi-token phrase needs adjacent tokens: another word between its
      tokens breaks the match. */
  lemma ContiguityExample()
    ensures !AnyMatches([["ballistic", "missile"]], ["a", "ballistic", "cruise", "missile", "was", "seen"])
    ensures AnyMatches([["ballistic", "missile"]], ["a", "ballistic", "missile", "was", "seen"])
  {
    var phrase := ["ballistic", "missile"];
    var ts := ["a", "ballistic", "cruise", "missile", "was", "seen"];
    forall i: nat | i < |ts|
      ensures !MatchesAt(phrase, ts, i)
    {
      if i + |phrase| <= |ts| {
        assert !TokenMatches(phrase[0], ts[i]) || !TokenMatches(phrase[1], ts[i + 1]);
      }
    }
    assert !PhraseMatches(phrase, ts);
    var ts' := ["a", "ballistic", "missile", "was", "seen"];
    assert MatchesAt(phrase, ts', 1);
    assert PhraseMatches([phrase][0], ts');
  }

  /** A wildcard token inside a multi-token phrase matches by prefix. */
  lemma WindowWildcardExample()
    ensures AnyMatches([["mosc*", "embassy"]], ["the", "moscow", "embassy", "reported"])
  {
    WildcardIgnoresTail("mosc", "", "moscow");
    assert "mosc" + "*" + "" == "mosc*";
    var phrase, ts := ["mosc*", "embassy"], ["the", "moscow", "embassy", "reported"];
    assert TokenMatches(phrase[0], ts[1 + 0]);
    assert MatchesAt(phrase, ts, 1);
    assert PhraseMatches([phrase][0], ts);
  }

  /** A one-token wildcard matches a token that its stem begins. */
  lemma SingleWildcardExample()
    ensures AnyMatches([["rus*"]], ["the", "russian", "fleet"])
  {
    WildcardIgnoresTail("rus", "", "russian");
    assert "rus" + "*" + "" == "rus*";
    var ts := ["the", "russian", "fleet"];
    assert TokenMatches("rus*", ts[1]);
    SingleIsWindowOfOne("rus*", ts);
    assert MatchesAt(["rus*"], ts, 1);
    assert PhraseMatches([["rus*"]][0], ts);
  }

  /** The one-word phrase `hello` labels the text `"Hello, world!"`
      positive: preprocessing lower-cases the capital and strips the comma. */
  lemma LiteralExample()
    ensures AnyMatches([["hello"]], PreprocessText("Hello, world!"))
  {
    PreprocessExample();
    var ts := ["hello", "world"];
    assert "hello" in ts;
    assert PhraseMatches([["hello"]][0], ts);
  }
}

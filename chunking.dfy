/** `cut_text_per_2000` of utils.py: packs consecutive sentences greedily
    into chunks shorter than 2000 characters for the Pegasus summariser. */
module Chunking {
  import opened PyStr
  import opened SentenceSplit

  /** A chunk must be shorter than this many characters. */
  const Limit: nat := 2000

  /** Every sentence that can start a chunk, that is every sentence but the
      last, is shorter than 1999 characters. Exactly then does the loop of
      `cut_text_per_2000` terminate (see `PackStalls` and `PackStopsAt`). */
  predicate CanStartChunks(sents: seq<string>) {
    forall k :: 0 <= k < |sents| - 1 ==> |sents[k]| < Limit - 1
  }

  /** The concatenation of `" " + x` for each `x` of `xs`: what repeated
      `' '.join([sub_para, x])` builds from an empty `sub_para`. */
  function SpaceJoin(xs: seq<string>): string {
    if |xs| == 0 then "" else " " + xs[0] + SpaceJoin(xs[1..])
  }

  lemma {:induction false} SpaceJoinAppend(xs: seq<string>, ys: seq<string>)
    ensures SpaceJoin(xs + ys) == SpaceJoin(xs) + SpaceJoin(ys)
  {
    if |xs| == 0 {
      assert xs + ys == ys;
    } else {
      assert (xs + ys)[1..] == xs[1..] + ys;
      SpaceJoinAppend(xs[1..], ys);
    }
  }

  /** A packed chunk is a space followed by the space-join of its sentences. */
  lemma {:induction false} SpaceJoinIsJoin(xs: seq<string>)
    requires |xs| > 0
    ensures SpaceJoin(xs) == " " + Join(xs)
  {
    if |xs| > 1 {
      SpaceJoinIsJoin(xs[1..]);
    }
  }

  /** The inner `while` loop, entered at sentence `i` with `sub_para ==
      para`: the sentence index and the chunk text it stops with. It adds
      sentences while the chunk stays shorter than the limit, and leaves the
      next sentence out only because adding it would reach the limit. */
  function Pack(sents: seq<string>, i: nat, para: string): (r: (nat, string))
    requires i < |sents|
    ensures i <= r.0 <= |sents|
    ensures r.1 == para + SpaceJoin(sents[i..r.0])
    ensures r.0 > i ==> |r.1| < Limit
    ensures r.0 < |sents| ==> |r.1 + " " + sents[r.0]| >= Limit
    ensures r.0 == i <==> |para + " " + sents[i]| >= Limit
    decreases |sents| - i
  {
    var next := para + " " + sents[i];
    if |next| < Limit then
      if i + 1 == |sents| then
        assert sents[i..i + 1] == [sents[i]];
        (i + 1, next)
      else
        var r := Pack(sents, i + 1, next);
        assert sents[i..r.0][0] == sents[i] && sents[i..r.0][1..] == sents[i + 1..r.0];
        r
    else
      (i, para)
  }

  /** The chunks the outer loop emits from sentence `i` on. */
  function ChunksFrom(sents: seq<string>, i: nat): seq<string>
    requires i <= |sents| && CanStartChunks(sents)
    decreases |sents| - i
  {
    if i + 1 >= |sents| then []
    else
      var r := Pack(sents, i, "");
      [r.1] + ChunksFrom(sents, r.0)
  }

  /** Where each of those chunks ends, as a sentence index. */
  function ChunkEnds(sents: seq<string>, i: nat): seq<int>
    requires i <= |sents| && CanStartChunks(sents)
    decreases |sents| - i
  {
    if i + 1 >= |sents| then []
    else
      var r := Pack(sents, i, "");
      [r.0] + ChunkEnds(sents, r.0)
  }

  /** The sentence index the outer loop stops at. */
  function FinalIndex(sents: seq<string>, i: nat): nat
    requires i <= |sents| && CanStartChunks(sents)
    decreases |sents| - i
  {
    if i + 1 >= |sents| then i else FinalIndex(sents, Pack(sents, i, "").0)
  }

  /** `cut_text_per_2000(text)`: the sentences of the text, packed. */
  method CutTextPer2000(text: string) returns (textCut: seq<string>)
    requires CanStartChunks(Sentences(Split(text)))
    ensures textCut == ChunksFrom(Sentences(Split(text)), 0)
  {
    var textSents := CutSentence(text);
    textCut := PackSentences(textSents);
  }

  /** The two loops of `cut_text_per_2000`, over the sentence list. */
  method PackSentences(textSents: seq<string>) returns (textCut: seq<string>)
    requires CanStartChunks(textSents)
    ensures textCut == ChunksFrom(textSents, 0)
  {
    textCut := [];
    var sentI := 0;
    while sentI < |textSents| - 1
      invariant 0 <= sentI <= |textSents|
      invariant textCut + ChunksFrom(textSents, sentI) == ChunksFrom(textSents, 0)
      decreases |textSents| - sentI
    {
      var subPara := "";
      ghost var start := sentI;
      while |subPara + " " + textSents[sentI]| < Limit
        invariant start <= sentI < |textSents|
        invariant Pack(textSents, sentI, subPara) == Pack(textSents, start, "")
        decreases |textSents| - sentI
      {
        PackStep(textSents, sentI, subPara);
        subPara := subPara + " " + textSents[sentI];
        sentI := sentI + 1;
        if sentI == |textSents| {
          break;
        }
      }
      PackStop(textSents, sentI, subPara);
      ChunksStep(textSents, start);
      ShiftOne(textCut, subPara, ChunksFrom(textSents, sentI), ChunksFrom(textSents, 0));
      textCut := textCut + [subPara];
    }
  }

  /** One turn of the inner loop: the sentence fits and is added. */
  lemma PackStep(sents: seq<string>, i: nat, para: string)
    requires i < |sents| && |para + " " + sents[i]| < Limit
    ensures i + 1 == |sents| ==> Pack(sents, i, para) == (i + 1, para + " " + sents[i])
    ensures i + 1 < |sents| ==> Pack(sents, i, para) == Pack(sents, i + 1, para + " " + sents[i])
  {
  }

  /** The inner loop stops: the sentence at `i`, if any, does not fit. */
  lemma PackStop(sents: seq<string>, i: nat, para: string)
    requires i < |sents| ==> |para + " " + sents[i]| >= Limit
    ensures i < |sents| ==> Pack(sents, i, para) == (i, para)
  {
  }

  /** One turn of the outer loop: the chunk packed from sentence `i`. */
  lemma ChunksStep(sents: seq<string>, i: nat)
    requires i + 1 < |sents| && CanStartChunks(sents)
    ensures ChunksFrom(sents, i) == [Pack(sents, i, "").1] + ChunksFrom(sents, Pack(sents, i, "").0)
  {
  }

  /** `ss[k]` is chunk `k`: a space and the space-join of the sentences from
      the end of the previous chunk (or from `i`) to `es[k]`, shorter than
      the limit, and the sentence after it would not have fitted. */
  predicate ChunkedAs(sents: seq<string>, cs: seq<string>, es: seq<int>, i: nat) {
    && |cs| == |es|
    && forall k {:trigger cs[k]} :: 0 <= k < |es| ==>
      && 0 <= StartOf(es, i, k) < es[k] <= |sents|
      && cs[k] == " " + Join(sents[StartOf(es, i, k)..es[k]])
      && |cs[k]| < Limit
      && (es[k] < |sents| ==> |cs[k]| + 1 + |sents[es[k]]| >= Limit)
  }

  lemma ChunkedCons(sents: seq<string>, cs: seq<string>, es: seq<int>, i: nat)
    requires i + 1 < |sents| && CanStartChunks(sents)
    requires ChunkedAs(sents, cs, es, Pack(sents, i, "").0)
    ensures ChunkedAs(sents, [Pack(sents, i, "").1] + cs, [Pack(sents, i, "").0] + es, i)
  {
    var r := Pack(sents, i, "");
    var cs', es' := [r.1] + cs, [r.0] + es;
    SpaceJoinIsJoin(sents[i..r.0]);
    assert |cs'| == |es'|;
    forall k | 0 <= k < |es'|
      ensures 0 <= StartOf(es', i, k) < es'[k] <= |sents|
      ensures cs'[k] == " " + Join(sents[StartOf(es', i, k)..es'[k]])
      ensures |cs'[k]| < Limit
      ensures es'[k] < |sents| ==> |cs'[k]| + 1 + |sents[es'[k]]| >= Limit
    {
      if k > 0 {
        assert cs'[k] == cs[k - 1];
        assert es'[k] == es[k - 1];
        assert StartOf(es', i, k) == StartOf(es, r.0, k - 1);
      }
    }
  }

  /** Every chunk is a space followed by a space-join of consecutive
      sentences, in order, shorter than 2000 characters; each chunk takes as
      many sentences as fit. */
  lemma {:induction false} ChunksShape(sents: seq<string>, i: nat)
    requires i <= |sents| && CanStartChunks(sents)
    ensures ChunkedAs(sents, ChunksFrom(sents, i), ChunkEnds(sents, i), i)
    decreases |sents| - i
  {
    if i + 1 < |sents| {
      var r := Pack(sents, i, "");
      ChunksShape(sents, r.0);
      ChunkedCons(sents, ChunksFrom(sents, r.0), ChunkEnds(sents, r.0), i);
    }
  }

  /** The outer loop stops at the last sentence or at the end: at most the
      last sentence is left out. */
  lemma {:induction false} FinalIndexBounds(sents: seq<string>, i: nat)
    requires i <= |sents| && CanStartChunks(sents)
    ensures |sents| - 1 <= FinalIndex(sents, i) <= |sents|
    ensures i <= FinalIndex(sents, i)
    decreases |sents| - i
  {
    if i + 1 < |sents| {
      FinalIndexBounds(sents, Pack(sents, i, "").0);
    }
  }

  /** Laid end to end, the chunks spell out the sentences from `i` up to the
      final index, in order and each once. */
  lemma {:induction false} ChunksCover(sents: seq<string>, i: nat)
    requires i <= |sents| && CanStartChunks(sents)
    ensures i <= FinalIndex(sents, i) <= |sents|
    ensures Concat(ChunksFrom(sents, i)) == SpaceJoin(sents[i..FinalIndex(sents, i)])
    decreases |sents| - i
  {
    FinalIndexBounds(sents, i);
    if i + 1 >= |sents| {
      assert sents[i..i] == [];
    } else {
      var r := Pack(sents, i, "");
      var rest := ChunksFrom(sents, r.0);
      ChunksStep(sents, i);
      assert FinalIndex(sents, i) == FinalIndex(sents, r.0);
      ChunksCover(sents, r.0);
      var f := FinalIndex(sents, i);
      ConcatCons(r.1, rest);
      assert r.1 == SpaceJoin(sents[i..r.0]) by {
        assert "" + SpaceJoin(sents[i..r.0]) == SpaceJoin(sents[i..r.0]);
      }
      SliceSplit(sents, i, r.0, f);
      SpaceJoinAppend(sents[i..r.0], sents[r.0..f]);
    }
  }

  /** Fewer than two sentences give no chunk at all. */
  lemma FewSentencesNoChunks(sents: seq<string>)
    requires |sents| < 2
    ensures ChunksFrom(sents, 0) == []
  {
  }

  /** A run of sentences that fit is left at the first sentence of 1999 or
      more characters: the chunk start never passes such a sentence. */
  lemma {:induction false} PackStopsAt(sents: seq<string>, i: nat, para: string, k: nat)
    requires i <= k < |sents| && |sents[k]| >= Limit - 1
    ensures Pack(sents, i, para).0 <= k
    decreases |sents| - i
  {
    if i < k {
      var next := para + " " + sents[i];
      if |next| < Limit {
        PackStopsAt(sents, i + 1, next, k);
      }
    }
  }

  /** A chunk that would start with a sentence of 1999 or more characters
      takes nothing: `sent_i` does not move and the outer loop repeats the
      same step forever, so `CanStartChunks` is needed for termination. */
  lemma PackStalls(sents: seq<string>, i: nat)
    requires i < |sents| && |sents[i]| >= Limit - 1
    ensures Pack(sents, i, "") == (i, "")
  {
  }

  /** Every sentence, the last one included, is shorter than 1999 characters. */
  predicate AllFit(sents: seq<string>) {
    forall k :: 0 <= k < |sents| ==> |sents[k]| < Limit - 1
  }

  /** The chunks of the corrected loop `while sent_i < len(text_sents)`,
      which lets the last sentence start a chunk of its own. */
  function CoveringChunksFrom(sents: seq<string>, i: nat): (r: seq<string>)
    requires i <= |sents| && AllFit(sents)
    ensures i < |sents| <==> |r| > 0
    ensures |r| <= |sents| - i
    decreases |sents| - i
  {
    if i >= |sents| then []
    else
      var r := Pack(sents, i, "");
      [r.1] + CoveringChunksFrom(sents, r.0)
  }

  /** The corrected loop loses nothing: laid end to end its chunks spell out
      every sentence, in order and each once. */
  lemma {:induction false} CoveringChunksCover(sents: seq<string>, i: nat)
    requires i <= |sents| && AllFit(sents)
    ensures Concat(CoveringChunksFrom(sents, i)) == SpaceJoin(sents[i..])
    decreases |sents| - i
  {
    if i == |sents| {
      assert sents[i..] == [];
    } else {
      var r := Pack(sents, i, "");
      CoveringChunksCover(sents, r.0);
      var rest := CoveringChunksFrom(sents, r.0);
      assert Concat([r.1] + rest) == r.1 + Concat(rest) by {
        assert ([r.1] + rest)[1..] == rest;
      }
      assert SpaceJoin(sents[i..]) == SpaceJoin(sents[i..r.0]) + SpaceJoin(sents[r.0..]) by {
        SliceJoin(sents, i, r.0);
        SpaceJoinAppend(sents[i..r.0], sents[r.0..]);
      }
    }
  }

  /** Every chunk of the corrected loop is shorter than the limit. */
  lemma {:induction false} CoveringChunksShort(sents: seq<string>, i: nat)
    requires i <= |sents| && AllFit(sents)
    ensures forall c :: c in CoveringChunksFrom(sents, i) ==> |c| < Limit
    decreases |sents| - i
  {
    if i < |sents| {
      CoveringChunksShort(sents, Pack(sents, i, "").0);
    }
  }

  /** As written, a text of one sentence gives no chunk: the whole text is
      lost, where the corrected loop keeps it as one chunk. */
  lemma OneSentenceLost(s: string)
    requires |s| < Limit - 1
    ensures ChunksFrom([s], 0) == []
    ensures CoveringChunksFrom([s], 0) == [" " + s]
  {
    assert "" + " " + s == " " + s;
    assert Pack([s], 0, "") == (1, " " + s);
  }

  /** As written, when the second of two sentences does not fit beside the
      first, it is dropped; the corrected loop gives it its own chunk. */
  lemma {:induction false} SecondSentenceLost(s0: string, s1: string)
    requires |s0| < Limit - 1 && |s1| < Limit - 1
    requires |s0| + |s1| + 2 >= Limit
    ensures ChunksFrom([s0, s1], 0) == [" " + s0]
    ensures CoveringChunksFrom([s0, s1], 0) == [" " + s0, " " + s1]
  {
    var sents := [s0, s1];
    assert "" + " " + s0 == " " + s0;
    assert "" + " " + s1 == " " + s1;
    assert |" " + s0 + " " + s1| >= Limit;
    assert Pack(sents, 1, " " + s0) == (1, " " + s0);
    assert Pack(sents, 0, "") == (1, " " + s0);
    assert Pack(sents, 1, "") == (2, " " + s1);
    assert CoveringChunksFrom(sents, 2) == [];
    assert CoveringChunksFrom(sents, 1) == [" " + s1];
  }
}

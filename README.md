# RusAttention text core in Dafny

RusAttention labels regulatory filings by whether they mention Russia. A
dictionary of words and phrases is loaded, each filing's text is normalised and
split into tokens, and the labeller asks whether any dictionary phrase occurs in
the tokens. A phrase token holding `*` is a wildcard that matches any word
beginning with the text before its first `*`. A multi-token phrase must lie on
consecutive tokens. For the Pegasus summariser, a text is also cut into
sentences and packed into chunks shorter than 2000 characters. The batch driver
splits the record indices between jobs, picks which extracted files to read, and
drops merged records without any item address.

This project models that deterministic core and proves its properties:

| file | module | what it models |
|---|---|---|
| `pystr.dfy` | `PyStr` | Python's `str.isspace`, ASCII `lower`/`isupper`, `strip`, `split()`, `' '.join`, list concatenation |
| `preprocess.dfy` | `Preprocess` | `preprocess_text`, one character pass per rewrite step |
| `matcher.dfy` | `Matcher` | `phrase_in_text`, as methods with the source's loops, proved against a match predicate |
| `dictionary.dfy` | `Dictionary` | `load_dicts`, over dictionary files already read as lines |
| `sentences.dfy` | `SentenceSplit` | `cut_sentence`, as a method proved against a recursive sentence function |
| `chunking.dfy` | `Chunking` | `cut_text_per_2000`, its termination condition, and a corrected variant |
| `batch.dfy` | `Batch` | the index segmentation, the extracted-path filter and the record-keep filter of `attnToSummary.py` |

Methods model the code that loops and mutates: `phrase_in_text`, `cut_sentence`,
`cut_text_per_2000`, the `+=` loop of `load_dicts`, and the two loops of
`threading`. Each method's `ensures` ties its result to a specification function
or predicate. Lemmas state what the source promises about those functions.
Comprehensions and string rewrites (`preprocess_text`, the `load_dicts` map, the
path filter) are functions.

Three behaviours of the code that the model keeps as written:

- Blank dictionary lines are kept as empty phrases, not filtered out
  (`Dictionary.LineToPhrase`).
- An empty phrase goes to the window branch and matches any text that has a
  token (`Matcher.EmptyPhraseMatches`).
- Text normalisation is done inside `phrase_in_text` itself
  (`Matcher.PhraseInText`).

## Model

| member | source | states |
|---|---|---|
| PyStr.LStrip | utils.py:44 | the result is a suffix of the input, everything cut is whitespace, and the result does not start with whitespace |
| PyStr.Lower | utils.py:73 | ASCII `lower()` keeps the length, turns each capital into its small letter (32 code points on), keeps every other character, and so keeps whitespace where it was |
| PyStr.LowerNoCapital | utils.py:73 | `lower()` leaves a string without ASCII capitals unchanged |
| PyStr.RStrip | utils.py:44 | the result is a prefix of the input, everything cut is whitespace, and the result does not end with whitespace |
| PyStr.Strip | utils.py:44 | `strip()` is a contiguous piece of the input with only whitespace cut on either side, and neither starts nor ends with whitespace |
| PyStr.StripTrimmed | utils.py:44 | a string that neither starts nor ends with whitespace is its own `strip()` |
| PyStr.StripEmptyIff | utils.py:44 | `strip()` gives the empty string exactly when the input is all whitespace |
| PyStr.LowerAllSpace | utils.py:44 | ASCII lower-casing keeps a string all-whitespace, and keeps it from being so |
| PyStr.SplitFrom | utils.py:49 | every token `split()` yields is non-empty, holds no whitespace, and takes its characters from the input |
| PyStr.SplitFromVisible | utils.py:49 | the tokens laid end to end are the pending word followed by every non-whitespace character of the rest, in order: `split()` drops nothing but whitespace |
| PyStr.Split | utils.py:77 | every token is a non-empty run of non-whitespace characters from the input, and the tokens laid end to end are exactly the input's non-whitespace characters in order |
| PyStr.SplitTakesWord | utils.py:77 | a word followed by whitespace becomes the first token, and the rest is split on its own |
| PyStr.SplitSkipsSpace | utils.py:77 | leading whitespace, of any length, yields no token |
| PyStr.SplitEmptyIff | utils.py:77 | `split()` is empty exactly when the input is all whitespace |
| PyStr.SplitJoin | utils.py:134-141 | splitting the space-join of a list of words gives the list back |
| PyStr.Join | utils.py:141 | `' '.join` starts with the first word's first character and holds only spaces and characters of the words |
| PyStr.JoinLast | utils.py:141 | `' '.join` ends with the last character of the last word |
| Preprocess.CollapseNewlines | utils.py:71 | after `\n+` becomes `". "` no newline is left, and every character is from the input or `.`/space |
| Preprocess.CollapseNewlinesRun | utils.py:71 | a whole run of one or more newlines after newline-free text becomes a single `". "` and the rest is rewritten on its own |
| Preprocess.DeleteSpaceRuns | utils.py:72 | deleting whitespace runs of length two or more keeps every visible character in order, leaves no two adjacent whitespace characters, keeps a visible first character, and adds no character |
| Preprocess.DeleteSpaceRunsKeeps | utils.py:72 | a prefix with no two adjacent whitespace characters passes unchanged, and the rest is rewritten on its own |
| Preprocess.DeleteSpaceRunsDrops | utils.py:72 | a run of two or more whitespace characters is deleted outright, not shortened to one space |
| Preprocess.DeleteSpaceRunsIdentity | utils.py:72 | a text with no two adjacent whitespace characters is left unchanged |
| Preprocess.GluingExample | utils.py:72 | deleting a double space glues its neighbours: `u  v w` becomes `uv w` |
| Preprocess.JoinKeepsSingleSpaces | utils.py:72 | the space-join of words has no whitespace run to delete and is left unchanged |
| Preprocess.ReplaceEach | utils.py:74-75 | the replacement loop turns each of `. , ? ! : ;` into a space and keeps every other character in place |
| Preprocess.PreprocessText | utils.py:53-77 | every token `preprocess_text` returns is non-empty and holds no whitespace, no ASCII capital and none of `. , ? ! : ;` |
| Preprocess.PreprocessJoin | utils.py:53-77 | the space-join of such plain words is preprocessed back into exactly those words |
| Preprocess.CapitalAndPunctuation | utils.py:71-77 | a capitalised word followed by `, ` another word and `!` gives both words, the first lowered, the punctuation gone |
| Preprocess.PreprocessExample | utils.py:53-77 | `Hello, world!` preprocesses to `hello`, `world` |
| Preprocess.CollapseNewlinesIdentity | utils.py:71 | a text without newline passes the first rewrite unchanged |
| Preprocess.BlankTextNoTokens | utils.py:71-77 | an empty or all-whitespace text yields no tokens |
| Matcher.Stem | utils.py:111 | `kw.split("*")[0]` is a `*`-free prefix of the token, ends just before its first `*`, and is the whole token when there is no `*` |
| Matcher.Distinct | utils.py:99-100 | the keys of the token counter are exactly the tokens, each once |
| Matcher.TakePrefix | utils.py:113 | `key[:len(kw)] == kw` holds exactly when `kw` is a prefix of `key` |
| Matcher.PhraseAt | utils.py:117-127 | the inner loop keeps `flag` true exactly when every phrase token matches the token at its offset, a position past the end failing |
| Matcher.SomeKeyStartsWith | utils.py:112-114 | the key loop returns true exactly when the stem is a prefix of some counter key |
| Matcher.SomeWindowMatches | utils.py:116-129 | the window loop returns true exactly when the phrase lies on the tokens at some start position, within bounds |
| Matcher.PhraseInText | utils.py:96-130 | `phrase_in_text` is true exactly when some phrase of the list matches the tokens of the preprocessed text |
| Matcher.PhraseInWords | utils.py:99-130 | the loop over phrases is true exactly when some phrase matches: a literal single token by membership, a wildcard single token by prefix, any other phrase by a contiguous window |
| Matcher.SingleIsWindowOfOne | utils.py:104-129 | the single-token branch agrees with the window rule applied to a one-token phrase |
| Matcher.OrderIrrelevant | utils.py:102-130 | two phrase lists that are permutations of each other give the same answer on every text |
| Matcher.NoPhrasesNoMatch | utils.py:102-130 | an empty phrase list matches nothing |
| Matcher.NoTokensNoMatch | utils.py:102-130 | a token list without tokens matches no phrase |
| Matcher.EmptyPhraseMatches | utils.py:115-129 | the empty phrase matches exactly the texts with at least one token |
| Matcher.WildcardIgnoresTail | utils.py:110-113 | a wildcard token matches a word exactly when the text before its first `*` is a prefix of the word; what follows the `*` is ignored |
| Matcher.EmptyTextNoMatch | utils.py:96-130 | the empty text matches no phrase list |
| Matcher.ContiguityExample | utils.py:115-129 | `ballistic missile` does not match the tokens `a ballistic cruise missile was seen` but matches the tokens `a ballistic missile was seen` |
| Matcher.WindowWildcardExample | utils.py:115-129 | `mosc* embassy` matches the tokens `the moscow embassy reported` |
| Matcher.SingleWildcardExample | utils.py:110-114 | `rus*` matches the tokens `the russian fleet` |
| Matcher.LiteralExample | utils.py:96-114 | the literal phrase `hello` is found in the text `Hello, world!` once it is preprocessed |
| Dictionary.NormalizeLines | utils.py:43-46 | the comprehension gives one normalised line per input line |
| Dictionary.LineToPhrase | utils.py:44-49 | every token of a loaded phrase is non-empty, holds no whitespace and no ASCII capital, and a line gives the empty phrase exactly when it is blank, which is kept |
| Dictionary.NormalizeLinesAt | utils.py:43-46 | normalised line `k` is `lines[k].strip().lower()` |
| Dictionary.NormalizeLinesAppend | utils.py:41-46 | normalising two files' lines one after the other is normalising their concatenation |
| Dictionary.LoadDicts | utils.py:40-51 | exactly one phrase per input line, files in order then lines in order, each the split of the stripped lowered line |
| Dictionary.LoaderRoundTrip | utils.py:40-51 | a phrase of capital-free words written as a line, words separated by single spaces, loads back as exactly that phrase |
| SentenceSplit.EndsFrom | utils.py:138-147 | every sentence end lies after the scan position and within the word list |
| SentenceSplit.EndsAreBreaks | utils.py:140-147 | a sentence ends only after the last word or after a terminal word, not a title, followed by a capital |
| SentenceSplit.BreaksAreEnds | utils.py:140-147 | every such break ends a sentence |
| SentenceSplit.EndsIncreasing | utils.py:138-147 | the sentence ends are strictly increasing |
| SentenceSplit.EndsAtEnd | utils.py:140-141 | a text with words has a last sentence ending at its last word |
| SentenceSplit.CutSentence | utils.py:132-148 | `cut_sentence` yields exactly the sentences of the recursive definition over `talk_content.split()` |
| SentenceSplit.CutWords | utils.py:138-147 | the loop over the words, with its branches on the last word, a terminal mark, a title and a following capital, yields exactly the sentences of the recursive definition |
| SentenceSplit.SentencesAreSegments | utils.py:141-147 | sentence `k` is the space-join of the words from the previous end to its own end |
| SentenceSplit.SentencesCover | utils.py:134-147 | splitting the sentences again and concatenating gives back the words, in order |
| SentenceSplit.SentencesNonEmpty | utils.py:138-147 | a text with words gives at least one sentence and no sentence is empty |
| SentenceSplit.CutSentenceFacts | utils.py:132-148 | for a whole text: words are neither lost nor repeated, a text with a word gives a sentence, every sentence is non-empty, and each is the space-join of the words between consecutive ends, each end just after a break |
| Chunking.SpaceJoinAppend | utils.py:176 | the repeated `' '.join([sub_para, s])` distributes over concatenation of sentence lists |
| Chunking.SpaceJoinIsJoin | utils.py:176 | a chunk built from an empty `sub_para` is a space followed by the space-join of its sentences |
| Chunking.Pack | utils.py:175-178 | the inner loop takes consecutive sentences while the chunk stays under 2000 characters, and stops only when the next would reach 2000 or there is none |
| Chunking.CutTextPer2000 | utils.py:170-181 | the result is the chunk list of the recursive definition over the sentences of the text |
| Chunking.PackSentences | utils.py:171-181 | the two loops yield exactly the chunk list of the recursive definition |
| Chunking.ChunksShape | utils.py:162-179 | every chunk is a space and the space-join of consecutive sentences, shorter than 2000 characters, and the next sentence would not have fitted |
| Chunking.FinalIndexBounds | utils.py:173 | the outer loop stops at the last sentence or after it |
| Chunking.ChunksCover | utils.py:173-179 | the chunks laid end to end spell out the sentences up to the final index, in order |
| Chunking.FewSentencesNoChunks | utils.py:173 | fewer than two sentences give no chunk |
| Chunking.PackStopsAt | utils.py:175-177 | a chunk never passes a sentence of 1999 or more characters |
| Chunking.PackStalls | utils.py:173-177 | a chunk that would start with a sentence of 1999 or more characters takes nothing and `sent_i` does not move |
| Chunking.CoveringChunksFrom | utils.py:173-179 | with the corrected loop bound the result has a chunk exactly when a sentence is left, and never more chunks than sentences |
| Chunking.CoveringChunksCover | utils.py:173-179 | with the corrected loop bound every sentence is in some chunk, in order |
| Chunking.CoveringChunksShort | utils.py:162 | with the corrected loop bound every chunk is shorter than 2000 characters |
| Chunking.OneSentenceLost | utils.py:173 | a one-sentence text gives no chunk as written, one chunk when corrected |
| Chunking.SecondSentenceLost | utils.py:173 | two sentences that do not fit together lose the second as written, and keep it when corrected |
| Batch.SegmentIndices | attnToSummary.py:181-188 | `jobs == 0` raises `ZeroDivisionError`; `jobs < 0` gives no sublist; otherwise exactly `jobs` sublists whose concatenation is the index list, all but the last consecutive slices of `len // jobs` indices, the last holding the rest |
| Batch.SlicedSizes | attnToSummary.py:186 | every sublist but the last has `len // jobs` indices |
| Batch.FewIndices | attnToSummary.py:182-188 | with fewer indices than jobs, every sublist but the last is empty |
| Batch.QuotientBound | attnToSummary.py:182-186 | no slice `i * num_per_job:(i + 1) * num_per_job` runs past the end while `i < jobs` |
| Batch.ExtractedPaths | attnToSummary.py:114-118 | a path is selected exactly when it is `store_path + p` for an address `p` that is a string of 10 or more characters |
| Batch.ExtractedPathsAppend | attnToSummary.py:114-118 | the selected paths follow column order |
| Batch.CountPresentPositive | attnToSummary.py:204-209 | the counter `value` is positive exactly when some item address is neither `' '` nor NaN |
| Batch.KeepNonEmpty | attnToSummary.py:202-210 | `save` lists in increasing order exactly the records with a present item address, and selecting them keeps those records in their original order |

## Left out

- File reading in `load_dicts` (`open`, `readlines`): the model takes each file as the list of its lines, with line terminators already removed or left to `strip`.
- The UTF-8 then GBK fallback read of `_assign_dummy2single_form`: that is file I/O and decoding.
- `SpacySummariser`, `LexRankSummariser` and `FinanceSummariser`: they run machine-learning libraries the model cannot see. The Pegasus refine loop has no termination argument, because it depends on the model's output length.
- `_assign_dummy2single_form` beyond its path filter: it calls a summariser.
- `assign_in_batch`, the pandas work in `threading` (`concat`, `loc`, `sort_values`, `reset_index`), the `f_date` reformatting and the joblib `Parallel` call: these are library calls and concurrency.
- `test_summary.py` and the `__main__` blocks of `lexrankSum.py` and `spacySum.py`: they are script drivers with fixed paths and timing.
- PyStr.Lower: only ASCII letters are lowered, where Python also lowers other Unicode letters.
- SentenceSplit.IsBreak: only `A`-`Z` count as upper case, where Python's `isupper` also accepts other Unicode capitals.
- SentenceSplit.CutWords: it takes a word list whose words are all non-empty, which is what `split()` yields (`PyStr.Split`). On an empty word `talk_word[-1]` would raise `IndexError`, and that path is not modelled.
- PyStr.IsSpace: the whitespace class is the fixed list of code points for which `str.isspace()` holds. `re`'s `\s` and `split()` use the same class.
- Batch.SegmentIndices: `int(len(idx_list) / jobs)` goes through a float. The model divides exactly, which differs from Python only beyond 2^53 records.
- Batch.SegmentIndices: for `jobs < 0` only the empty result is modelled. What joblib does with a negative job count and an empty task list is not part of this model.
- Batch.KeepNonEmpty: the index labels of `output` are modelled as positions, which is what they are after `reset_index(drop=True)`. The `sort_values` by `CIK` and `f_date` that follows is left out.
- Chunking.CutTextPer2000: it demands `CanStartChunks`, that every sentence but the last is shorter than 1999 characters. The source loops forever otherwise (`Chunking.PackStalls`), so the model states that case as a precondition rather than a behaviour.
- Address cells are either a string or pandas' NaN float (`Batch.Address`). Other cell types do not occur in the summary table.

## Findings

| source | as written | input that shows it | evidently intended | confidence | as-written member | corrected member |
|---|---|---|---|---|---|---|
| utils.py:173 | `while sent_i < len(text_sents)-1` never lets the last sentence start a chunk, so a one-sentence text gives `[]`, and a last sentence that does not fit beside the previous chunk is dropped | a text of one sentence, or two sentences of 1500 characters each | every sentence lands in some chunk (`while sent_i < len(text_sents)`), as the docstring at utils.py:161-162 describes a cut of the whole text | not executed | Chunking.OneSentenceLost, Chunking.SecondSentenceLost | Chunking.CoveringChunksFrom, Chunking.CoveringChunksCover |

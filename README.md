# Simple-Article-Summarizer in Dafny

A model of the core of a frequency-based extractive summarizer (`summarizer.py`). The summarizer
normalises whitespace in a document, splits it into sentences and into lowercase words, and drops stop
words and punctuation. It counts how often each remaining word occurs and scores every sentence by the
sum of those counts over its words. It then returns the `length` best-scoring sentences, joined in
document order.

The project has five modules, one file each:

- `Seqs` (`seqs.dfy`): subsequences, `''.join`, and picking elements at given positions.
- `Whitespace` (`whitespace.dfy`): `clean_whitespace`, a character-by-character translation.
- `Tokenizer` (`tokenizer.dfy`): `tokenize_text`. The natural-language library it calls is an abstract
  `Language` value: a sentence segmenter, a word tokenizer, `str.lower`, and the stop-word list.
  Python's `string.punctuation` is written out as a constant.
- `Scoring` (`scoring.dfy`): `FreqDist` as a counting function, and `score_tokens` as a method with
  nested loops that update a rank map in place.
- `Selection` (`selection.dfy`): `compile_summary`. `heapq.nlargest` is modelled by the result Python
  documents for it: `sorted(ranks, key=ranks.get, reverse=True)[:length]`. That is a stable sort by
  decreasing score over the keys in the map's iteration order.

The rank map's iteration order is its insertion order. `score_tokens` inserts keys while counting the
sentence index upwards, so the order is ascending index, and ties in score go to the lower index.
`AscendingMembers` models that order. The model also uses it for `sorted(indices)`, and
`SortedIndicesIsSorted` proves that it gives the one ascending arrangement of the selected indices.

A summary can hold fewer than `length` sentences, because `nlargest` chooses only among sentences that
have a rank entry. `NLargestCount` states this: `min(length, |ranks|)` sentences.

## Model

| member | source | states |
|---|---|---|
| `Whitespace.TranslateChar` | summarizer.py:50-56 | a carriage return translates to nothing; form feed, tab and newline translate to a single space; every other character translates to itself |
| `Whitespace.Clean` | summarizer.py:46-56 | the normalised text contains no form feed, tab, newline or carriage return, and is shorter than the input by exactly the number of carriage returns |
| `Whitespace.CleanAt` | summarizer.py:50-56 | each input character that is not a carriage return lands at its own position minus the number of carriage returns before it; form feed, tab and newline become a space and every other character is unchanged, so the relative order is kept |
| `Whitespace.CleanFixesClean` | summarizer.py:50-56 | text without the four control characters is returned unchanged |
| `Whitespace.CleanIdempotent` | summarizer.py:56 | normalising twice equals normalising once |
| `Whitespace.CleanAppend` | summarizer.py:56 | the translation works per character: normalising a concatenation concatenates the normalised parts |
| `Tokenizer.StopSet` | summarizer.py:63 | a token is excluded iff it is a stop word or a one-character string holding a punctuation character |
| `Tokenizer.WordTokens` | summarizer.py:64 | no contract of its own: `word_tokenize(text.lower())` over the abstract library, the token list that `TokenizeText` filters and `ScoreTokens` scores (also summarizer.py:75) |
| `Tokenizer.FilterWords` | summarizer.py:65 | each token outside the stop set occurs in the result as often as in the input, and each stop-set token never occurs; a token is in the result iff it is in the input and not in the stop set |
| `Tokenizer.FilterIsSubsequence` | summarizer.py:65 | the filtered list is an order-preserving subsequence of the tokens |
| `Tokenizer.TokenizeText` | summarizer.py:58-65 | the sentences are the segmenter's output; the words are a subsequence of the tokens of the lowercased text; no stop word or punctuation survives; every other token keeps its number of occurrences |
| `Scoring.FreqDist` | summarizer.py:72 | a word is a key iff it occurs in the filtered list, and its value is its number of occurrences |
| `Scoring.SentenceScore` | summarizer.py:75-77 | the sum that `ranking[i] +=` accumulates for one sentence; a sentence none of whose tokens is a key scores 0; its other properties are `ScorePositive`, `ScoreAtLeastCount`, `ScoreAppend` and `ScoreIgnoresStopWords` |
| `Scoring.StopWordsNeverKeys` | summarizer.py:63-72 | no stop word or punctuation token is a key of the frequency map built from the filtered words |
| `Scoring.ScorePositive` | summarizer.py:74-77 | with positive counts, a sentence scores at least 1 iff some token of it is a key of the frequency map |
| `Scoring.ScoreAtLeastCount` | summarizer.py:74-77 | a sentence containing a key w scores at least the count of w |
| `Scoring.ScoreAppend` | summarizer.py:75-77 | the score of concatenated token lists is the sum of their scores |
| `Scoring.ScoreIgnoresStopWords` | summarizer.py:75-77 | when no stop word is a key, scoring the raw tokens and scoring the filtered tokens give the same sum, so skipping a second filter changes nothing |
| `Scoring.ScoreTokens` | summarizer.py:67-78 | index i is a key of the rank map iff i is a sentence index and some token of the lowercased sentence i is a key of the frequency map; its value is the sum of the frequency counts of those tokens; every value is at least 1 |
| `Selection.AscendingMembers` | summarizer.py:74-77 | lists exactly the members below n, strictly ascending and at most n of them: the order in which the rank map yields its keys |
| `Selection.AscendingMembersCount` | summarizer.py:74-77 | when every key is below n, every key is listed exactly once |
| `Selection.InsertByScore` | summarizer.py:88 | inserting an index adds exactly that index to the multiset of elements |
| `Selection.SortByScore` | summarizer.py:88 | the sort is a permutation of its input |
| `Selection.InsertKeepsRanked` | summarizer.py:88 | inserting an index larger than all present, after every element scoring at least as much, keeps the sequence ordered by decreasing score, ties by increasing index |
| `Selection.SortIsRanked` | summarizer.py:88 | stably sorting keys given in ascending order yields decreasing score with ties broken by the lower index |
| `Selection.RankedKeys` | summarizer.py:88 | the sorted key list holds every key of the rank map exactly once, ordered by decreasing score, ties by index |
| `Selection.ByScore` | summarizer.py:88 | holds exactly the keys of the rank map below n; `RankedKeys` states that each appears once, by decreasing score, ties by index |
| `Selection.NLargest` | summarizer.py:88 | `nlargest` returns at most `length` indices; `NLargestCount`, `NLargestDistinctKeys` and `NLargestIsTopK` state the rest |
| `Selection.NLargestCount` | summarizer.py:88 | `nlargest` returns `min(length, number of ranked sentences)` indices |
| `Selection.NLargestDistinctKeys` | summarizer.py:88 | the selected indices are distinct keys of the rank map, hence valid sentence indices |
| `Selection.NLargestIsTopK` | summarizer.py:88 | every selected index scores higher than every ranked index left out, or scores the same and has a lower index |
| `Selection.SortedIndices` | summarizer.py:89 | strictly ascending, holding exactly the given indices below n; `SortedIndicesIsSorted` states it is a permutation of distinct indices |
| `Selection.SortedIndicesIsSorted` | summarizer.py:89 | `sorted(indices)` is strictly ascending and a permutation of the selected indices |
| `Selection.CompileSummary` | summarizer.py:80-90 | a request for more sentences than exist yields the error result and no summary; any other request succeeds; a length of 0 yields the empty string |
| `Selection.SummaryKeepsDocumentOrder` | summarizer.py:88-90 | for a valid length, the summary is the join, with no separator, of the sentences at the selected indices in ascending order; those sentences form a subsequence of the document, `min(length, ranked)` of them |
| `Selection.AllSelected` | summarizer.py:88 | when every sentence is ranked and all are requested, every index is selected |
| `Selection.FullSummary` | summarizer.py:80-90 | when every sentence is ranked and all are requested, the summary is the whole sentence list joined |
| `Seqs.PickIsSubsequence` | summarizer.py:89 | picking at strictly increasing positions gives a subsequence |
| `Seqs.Join` | summarizer.py:90 | no contract of its own: `''.join` with no separator; `JoinAppend` states its property |
| `Seqs.JoinAppend` | summarizer.py:90 | joining a concatenation of part lists equals concatenating the joins of each |

## Left out

- `parse_arguments` (summarizer.py:25-32): command-line parsing. `length` is a `nat` here. The model does not capture that `--length` arrives as a string from the command line.
- `read_file` (summarizer.py:34-44), `print`, `exit()` and the `__init__`/`main` wiring (summarizer.py:14-23, 86-87, 92-101): file and console I/O and process control. `exit()` becomes the `Err(RequestExceedsAvailable)` result.
- `sent_tokenize`, `word_tokenize`, `str.lower` and the English stop-word corpus are library code whose internals are not part of this model. They are fields of an abstract `Language` value, so every property holds for any segmenter, tokenizer, lowercasing and stop-word list.
- `FreqDist` is modelled only as the word counts it holds, not as the library class.
- `heapq.nlargest`: its heap is not modelled. Its result is specified as its documented equivalent, a stable sort by decreasing score, cut to `length`.
- The rank map is a `map` with no order of its own. Its insertion order, ascending index, is supplied by `AscendingMembers` over the sentence indices.
- Selection.CompileSummary: requires every key of the rank map to be a sentence index. `score_tokens`, the only producer of the rank map, guarantees this. A rank map with a larger key would make Python raise `IndexError` when `nlargest` selects that key, and the model does not capture that.

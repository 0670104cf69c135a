/** The frequency scorer: `Summarizer.score_tokens`. */
module Scoring {
  import opened Tokenizer

  /** `FreqDist(words)`: each word that occurs, mapped to how often it occurs. */
  function FreqDist(words: seq<string>): (m: map<string, nat>)
    ensures forall w :: w in m <==> multiset(words)[w] > 0
    ensures forall w :: w in m ==> m[w] == multiset(words)[w]
  {
    if words == [] then map[]
    else
      var init, last := words[..|words| - 1], words[|words| - 1];
      assert words == init + [last];
      var m := FreqDist(init);
      m[last := (if last in m then m[last] else 0) + 1]
  }

  /** Every word that is a key of a frequency map built by `FreqDist` has a count of at least one. */
  ghost predicate PositiveCounts(freq: map<string, nat>)
  {
    forall w :: w in freq ==> freq[w] >= 1
  }

  /** Some token of the sentence is a key of the frequency map. */
  ghost predicate Scorable(tokens: seq<string>, freq: map<string, nat>)
  {
    exists t :: t in tokens && t in freq
  }

  /** A sentence's score: the frequency-map count of each of its tokens that is a key, summed;
      a token that is not a key adds nothing. */
  function SentenceScore(tokens: seq<string>, freq: map<string, nat>): (r: nat)
    ensures (forall t :: t in tokens ==> t !in freq) ==> r == 0
  {
    if tokens == [] then 0
    else
      var last := tokens[|tokens| - 1];
      SentenceScore(tokens[..|tokens| - 1], freq) + (if last in freq then freq[last] else 0)
  }

  /** With positive counts, a sentence scores at least one exactly when it has a scorable token. */
  lemma {:induction false} ScorePositive(tokens: seq<string>, freq: map<string, nat>)
    requires PositiveCounts(freq)
    ensures Scorable(tokens, freq) <==> SentenceScore(tokens, freq) >= 1
  {
    if tokens != [] {
      var init, last := tokens[..|tokens| - 1], tokens[|tokens| - 1];
      assert tokens == init + [last];
      ScorePositive(init, freq);
      if Scorable(tokens, freq) && last !in freq {
        var t :| t in tokens && t in freq;
        assert t in init;
      }
    }
  }

  /** A sentence containing a scorable word scores at least that word's document-wide count. */
  lemma {:induction false} ScoreAtLeastCount(tokens: seq<string>, freq: map<string, nat>, w: string)
    requires w in tokens && w in freq
    ensures SentenceScore(tokens, freq) >= freq[w]
  {
    var init, last := tokens[..|tokens| - 1], tokens[|tokens| - 1];
    assert tokens == init + [last];
    if last != w {
      ScoreAtLeastCount(init, freq, w);
    }
  }

  /** Scores add up over concatenated token lists. */
  lemma {:induction false} ScoreAppend(a: seq<string>, b: seq<string>, freq: map<string, nat>)
    ensures SentenceScore(a + b, freq) == SentenceScore(a, freq) + SentenceScore(b, freq)
  {
    if b == [] {
      assert a + b == a;
    } else {
      var init := b[..|b| - 1];
      assert (a + b)[..|a + b| - 1] == a + init;
      ScoreAppend(a, init, freq);
    }
  }

  /** No stop word or punctuation token is ever a key of the frequency map built from the filtered words. */
  lemma StopWordsNeverKeys(lang: Language, text: string)
    ensures forall w :: w in StopSet(lang.stopWords) ==> w !in FreqDist(TokenizeText(lang, text).words)
  {
  }

  /** Scoring a sentence's raw tokens gives the same score as scoring them after the stop-word filter,
      when no stop word is a key: filtering once, before counting, is enough. */
  lemma {:induction false} ScoreIgnoresStopWords(tokens: seq<string>, stops: set<string>, freq: map<string, nat>)
    requires forall w :: w in stops ==> w !in freq
    ensures SentenceScore(FilterWords(tokens, stops), freq) == SentenceScore(tokens, freq)
  {
    if tokens != [] {
      var head, rest := tokens[0], tokens[1..];
      assert tokens == [head] + rest;
      ScoreIgnoresStopWords(rest, stops, freq);
      ScoreAppend([head], rest, freq);
      var kept := if head in stops then [] else [head];
      ScoreAppend(kept, FilterWords(rest, stops), freq);
      assert [head][..0] == [];
      assert SentenceScore([head], freq) == SentenceScore(kept, freq);
    }
  }

  /** The scores over the filtered words: `word_freq = FreqDist(filtered_words)`, then for each sentence i
      and each word of `word_tokenize(sentence.lower())` that is a key, `ranking[i] += word_freq[word]`
      on a `defaultdict(int)`. */
  method ScoreTokens(lang: Language, filteredWords: seq<string>, sentences: seq<string>)
    returns (ranking: map<nat, nat>)
    ensures forall i: nat :: i in ranking <==>
              i < |sentences| && Scorable(WordTokens(lang, sentences[i]), FreqDist(filteredWords))
    ensures forall i :: i in ranking ==>
              i < |sentences| && ranking[i] == SentenceScore(WordTokens(lang, sentences[i]), FreqDist(filteredWords))
    ensures forall i :: i in ranking ==> ranking[i] >= 1
  {
    var wordFreq := FreqDist(filteredWords);
    ranking := map[];
    for i := 0 to |sentences|
      invariant forall k: nat :: k in ranking <==> k < i && Scorable(WordTokens(lang, sentences[k]), wordFreq)
      invariant forall k :: k in ranking ==>
                  k < i && ranking[k] == SentenceScore(WordTokens(lang, sentences[k]), wordFreq)
    {
      var words := WordTokens(lang, sentences[i]);
      for j := 0 to |words|
        invariant forall k: nat :: k in ranking <==>
                    (k < i && Scorable(WordTokens(lang, sentences[k]), wordFreq)) || (k == i && Scorable(words[..j], wordFreq))
        invariant forall k :: k in ranking ==>
                    k <= i && ranking[k] == SentenceScore(if k == i then words[..j] else WordTokens(lang, sentences[k]), wordFreq)
      {
        var word := words[j];
        assert words[..j + 1] == words[..j] + [word];
        if word in wordFreq {
          if i !in ranking {
            ScorePositive(words[..j], wordFreq);
          }
          ranking := ranking[i := (if i in ranking then ranking[i] else 0) + wordFreq[word]];
        }
      }
      assert words[..|words|] == words;
    }
    forall k | k in ranking ensures ranking[k] >= 1 {
      ScorePositive(WordTokens(lang, sentences[k]), wordFreq);
    }
  }
}

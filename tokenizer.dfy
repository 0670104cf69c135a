/** The tokenizer: `Summarizer.tokenize_text`. Sentence splitting, word splitting, lowercasing and the
    stop-word list come from a natural-language library and are taken here as the fields of a `Language`. */
module Tokenizer {
  import opened Seqs

  /** The library the summarizer leans on: a sentence segmenter, a word tokenizer, `str.lower`,
      and the English stop-word list. */
  datatype Language = Language(
    sentTokenize: string -> seq<string>,
    wordTokenize: string -> seq<string>,
    lower: string -> string,
    stopWords: set<string>)

  /** Python's `string.punctuation`: the 32 ASCII punctuation characters. */
  const Punctuation: string := "!\"#$%&'()*+,-./:;<=>?@[\\]^_`{|}~"

  /** The excluded tokens: every stop word, and every punctuation character as a one-character string. */
  function StopSet(stopWords: set<string>): (r: set<string>)
    ensures forall w :: w in r <==> w in stopWords || (|w| == 1 && w[0] in Punctuation)
  {
    var marks := set c | c in Punctuation :: [c];
    assert forall w :: |w| == 1 && w[0] in Punctuation ==> w == [w[0]] && w in marks;
    stopWords + marks
  }

  /** `word_tokenize(text.lower())`: the lowercase word tokens of a text. */
  function WordTokens(lang: Language, text: string): seq<string>
  {
    lang.wordTokenize(lang.lower(text))
  }

  /** `[word for word in words if word not in stops]`. */
  function FilterWords(words: seq<string>, stops: set<string>): (r: seq<string>)
    ensures forall w :: multiset(r)[w] == if w in stops then 0 else multiset(words)[w]
    ensures forall w :: w in r <==> w in words && w !in stops
  {
    if words == [] then []
    else
      assert words == [words[0]] + words[1..];
      (if words[0] in stops then [] else [words[0]]) + FilterWords(words[1..], stops)
  }

  /** The filtered words are the input tokens with some deleted and the rest in their original order. */
  lemma {:induction false} FilterIsSubsequence(words: seq<string>, stops: set<string>)
    ensures IsSubsequence(FilterWords(words, stops), words)
  {
    if words != [] {
      var rest := FilterWords(words[1..], stops);
      FilterIsSubsequence(words[1..], stops);
      if words[0] !in stops {
        assert FilterWords(words, stops) == [words[0]] + rest;
        assert ([words[0]] + rest)[1..] == rest;
      } else {
        assert FilterWords(words, stops) == rest;
        SubsequenceOfTail(rest, words);
      }
    }
  }

  /** The two outputs of `tokenize_text`: the sentences and the filtered lowercase words. */
  datatype Tokens = Tokens(sentences: seq<string>, words: seq<string>)

  function TokenizeText(lang: Language, text: string): (r: Tokens)
    ensures r.sentences == lang.sentTokenize(text)
    ensures IsSubsequence(r.words, WordTokens(lang, text))
    ensures forall w :: w in r.words ==> w !in lang.stopWords && !(|w| == 1 && w[0] in Punctuation)
    ensures forall w :: w !in StopSet(lang.stopWords) ==>
              multiset(r.words)[w] == multiset(WordTokens(lang, text))[w]
  {
    var words := WordTokens(lang, text);
    FilterIsSubsequence(words, StopSet(lang.stopWords));
    Tokens(lang.sentTokenize(text), FilterWords(words, StopSet(lang.stopWords)))
  }
}

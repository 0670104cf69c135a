/** The text normaliser: `Summarizer.clean_whitespace`, a `str.translate` over a fixed table. */
module Whitespace {

  datatype Option<T> = None | Some(value: T)

  const FormFeed: char := '\U{C}'

  /** The translation table: form feed, tab and newline become a space, carriage return is deleted. */
  const Replace: map<char, Option<char>> :=
    map[FormFeed := Some(' '), '\t' := Some(' '), '\n' := Some(' '), '\r' := None]

  /** The character a non-carriage-return character becomes: a space for the three blanks, itself otherwise. */
  function Spaced(c: char): char
  {
    if c == FormFeed || c == '\t' || c == '\n' then ' ' else c
  }

  /** What `str.translate` puts in place of one character: its table entry, or the character itself. */
  function TranslateChar(c: char): (r: seq<char>)
    ensures c == '\r' ==> r == []
    ensures c != '\r' ==> r == [Spaced(c)]
  {
    if c in Replace then
      match Replace[c]
      case Some(d) => [d]
      case None => []
    else [c]
  }

  /** Number of carriage returns in `s`. */
  function CarriageReturns(s: string): nat
  {
    multiset(s)['\r']
  }

  /** `text.translate(replace)`: each character replaced by its translation, in order. */
  function Clean(s: string): (r: string)
    ensures forall i :: 0 <= i < |r| ==> r[i] !in Replace
    ensures |r| == |s| - CarriageReturns(s)
  {
    if s == [] then []
    else
      assert s == [s[0]] + s[1..];
      TranslateChar(s[0]) + Clean(s[1..])
  }

  /** Character i of the input, unless it is a carriage return, lands at position i minus the number of
      carriage returns before it, translated by `Spaced`: the other characters keep their order. */
  lemma {:induction false} CleanAt(s: string, i: nat)
    requires i < |s| && s[i] != '\r'
    ensures CarriageReturns(s[..i]) <= i < |Clean(s)| + CarriageReturns(s[..i])
    ensures Clean(s)[i - CarriageReturns(s[..i])] == Spaced(s[i])
  {
    assert s == [s[0]] + s[1..];
    if i == 0 {
      assert s[..0] == [];
    } else {
      CleanAt(s[1..], i - 1);
      assert s[..i] == [s[0]] + s[1..][..i - 1];
    }
  }

  /** Text already free of the four control characters is left unchanged. */
  lemma {:induction false} CleanFixesClean(s: string)
    requires forall i :: 0 <= i < |s| ==> s[i] !in Replace
    ensures Clean(s) == s
  {
    if s != [] {
      CleanFixesClean(s[1..]);
    }
  }

  /** Normalising twice gives the same text as normalising once. */
  lemma CleanIdempotent(s: string)
    ensures Clean(Clean(s)) == Clean(s)
  {
    CleanFixesClean(Clean(s));
  }

  /** The translation works character by character, so it distributes over concatenation. */
  lemma {:induction false} CleanAppend(a: string, b: string)
    ensures Clean(a + b) == Clean(a) + Clean(b)
  {
    if a != [] {
      assert (a + b)[1..] == a[1..] + b;
      CleanAppend(a[1..], b);
    } else {
      assert a + b == b;
    }
  }
}

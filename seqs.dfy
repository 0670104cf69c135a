/** Sequence vocabulary shared by the summarizer's steps. */
module Seqs {

  /** `a` is `b` with some elements deleted and the rest kept in order. */
  predicate IsSubsequence<T(==)>(a: seq<T>, b: seq<T>)
    decreases |b|
  {
    if a == [] then true
    else if b == [] then false
    else if a[0] == b[0] then IsSubsequence(a[1..], b[1..])
    else IsSubsequence(a, b[1..])
  }

  /** Every element is strictly below the next, so the elements are distinct and ascending. */
  predicate StrictlyIncreasing(s: seq<nat>)
  {
    forall i, j :: 0 <= i < j < |s| ==> s[i] < s[j]
  }

  /** Concatenation of strings with no separator, as Python's `''.join`. */
  function Join(parts: seq<string>): string
  {
    if parts == [] then [] else parts[0] + Join(parts[1..])
  }

  /** Joining two lists of parts is joining each and concatenating the results. */
  lemma {:induction false} JoinAppend(a: seq<string>, b: seq<string>)
    ensures Join(a + b) == Join(a) + Join(b)
  {
    if a == [] {
      assert a + b == b;
    } else {
      assert (a + b)[1..] == a[1..] + b;
      JoinAppend(a[1..], b);
    }
  }

  /** The elements of `s` at the positions listed in `order`. */
  function Pick<T>(s: seq<T>, order: seq<nat>): seq<T>
    requires forall k :: 0 <= k < |order| ==> order[k] < |s|
  {
    seq(|order|, k requires 0 <= k < |order| => s[order[k]])
  }

  /** Picking at strictly increasing positions keeps the picked elements in their original order. */
  lemma {:induction false} PickIsSubsequence<T>(s: seq<T>, order: seq<nat>)
    requires forall k :: 0 <= k < |order| ==> order[k] < |s|
    requires StrictlyIncreasing(order)
    ensures IsSubsequence(Pick(s, order), s)
    decreases |s|
  {
    var r := Pick(s, order);
    if order == [] {
    } else if order[0] == 0 {
      var rest := seq(|order| - 1, k requires 0 <= k < |order| - 1 => order[k + 1] - 1);
      forall k | 0 <= k < |rest| ensures rest[k] < |s[1..]| {
        assert order[0] < order[k + 1];
      }
      PickIsSubsequence(s[1..], rest);
      assert Pick(s[1..], rest) == r[1..];
    } else {
      var shifted := seq(|order|, k requires 0 <= k < |order| => order[k] - 1);
      forall k | 0 <= k < |order| ensures order[k] >= 1 {
        assert order[0] <= order[k];
      }
      PickIsSubsequence(s[1..], shifted);
      assert Pick(s[1..], shifted) == r;
      SubsequenceOfTail(r, s);
    }
  }

  lemma {:induction false} SubsequenceOfTail<T>(a: seq<T>, b: seq<T>)
    requires b != [] && IsSubsequence(a, b[1..])
    ensures IsSubsequence(a, b)
    decreases |b|, 0
  {
    if a != [] && a[0] == b[0] {
      SubsequenceDropHead(a, b[1..]);
    }
  }

  lemma {:induction false} SubsequenceDropHead<T>(a: seq<T>, b: seq<T>)
    requires a != [] && IsSubsequence(a, b)
    ensures IsSubsequence(a[1..], b)
    decreases |b|, 1
  {
    if a[0] == b[0] {
      if a[1..] != [] {
        SubsequenceOfTail(a[1..], b);
      }
    } else {
      SubsequenceDropHead(a, b[1..]);
      if a[1..] != [] {
        SubsequenceOfTail(a[1..], b);
      }
    }
  }
}

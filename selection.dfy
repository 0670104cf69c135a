/** The selector: `Summarizer.compile_summary`. `heapq.nlargest` is specified by what it returns, the
    `length` best indices by score with ties going to the lower index, not by the heap it uses. */
module Selection {
  import opened Seqs

  datatype SummaryError = RequestExceedsAvailable
  datatype Result<T> = Ok(value: T) | Err(error: SummaryError)

  predicate Distinct<T(==)>(s: seq<T>)
  {
    forall i, j :: 0 <= i < j < |s| ==> s[i] != s[j]
  }

  /** The members of `keys` below `n` in ascending order. This is the order in which the rank map
      yields its keys, since the scorer inserts them while counting the sentence index upwards, and
      it is also `sorted(indices)` for distinct indices below `n`. */
  function AscendingMembers(keys: set<nat>, n: nat): (r: seq<nat>)
    ensures forall i :: i in r <==> i in keys && i < n
    ensures StrictlyIncreasing(r)
    ensures |r| <= n
  {
    if n == 0 then []
    else
      var below := AscendingMembers(keys, n - 1);
      assert forall k :: 0 <= k < |below| ==> below[k] in below;
      below + (if n - 1 in keys then [n - 1] else [])
  }

  /** A sequence without repetitions holds each of its elements exactly once. */
  lemma {:induction false} DistinctMultiset<T>(s: seq<T>)
    requires Distinct(s)
    ensures multiset(s) == multiset(Elements(s))
  {
    if s != [] {
      var init, last := s[..|s| - 1], s[|s| - 1];
      assert s == init + [last];
      DistinctMultiset(init);
      assert Elements(s) == Elements(init) + {last};
      assert last !in init;
    }
  }

  function Elements<T>(s: seq<T>): set<T>
  {
    set x | x in s
  }

  /** A sequence without repetitions is as long as the set of its elements is large. */
  lemma {:induction false} DistinctCard<T>(s: seq<T>)
    requires Distinct(s)
    ensures |Elements(s)| == |s|
  {
    if s != [] {
      var init, last := s[..|s| - 1], s[|s| - 1];
      assert s == init + [last];
      DistinctCard(init);
      assert Elements(s) == Elements(init) + {last};
      assert last !in init;
    }
  }

  /** When every key lies below `n`, the ascending listing holds each key once. */
  lemma AscendingMembersCount(keys: set<nat>, n: nat)
    requires forall k :: k in keys ==> k < n
    ensures |AscendingMembers(keys, n)| == |keys|
  {
    var r := AscendingMembers(keys, n);
    assert Distinct(r);
    DistinctCard(r);
    assert Elements(r) == keys;
  }

  /** `a` comes before `b` in `nlargest`'s answer: a higher score, or the same score and a lower index. */
  predicate Precedes(ranks: map<nat, nat>, a: nat, b: nat)
  {
    a in ranks && b in ranks && (ranks[a] > ranks[b] || (ranks[a] == ranks[b] && a < b))
  }

  predicate Ranked(ranks: map<nat, nat>, s: seq<nat>)
  {
    forall i, j :: 0 <= i < j < |s| ==> Precedes(ranks, s[i], s[j])
  }

  /** Inserts `x` after every element scoring at least as much: a stable insertion into a sequence
      ordered by decreasing score. */
  function InsertByScore(ranks: map<nat, nat>, x: nat, ys: seq<nat>): (r: seq<nat>)
    requires x in ranks && forall y :: y in ys ==> y in ranks
    ensures multiset(r) == multiset(ys) + multiset{x}
    ensures forall y :: y in r <==> y in ys || y == x
  {
    if ys == [] then [x]
    else if ranks[ys[0]] >= ranks[x] then
      assert ys == [ys[0]] + ys[1..];
      [ys[0]] + InsertByScore(ranks, x, ys[1..])
    else [x] + ys
  }

  /** `sorted(xs, key=ranks.get, reverse=True)`: a stable sort by decreasing score. */
  function SortByScore(ranks: map<nat, nat>, xs: seq<nat>): (r: seq<nat>)
    requires forall x :: x in xs ==> x in ranks
    ensures multiset(r) == multiset(xs)
    ensures forall y :: y in r <==> y in xs
  {
    if xs == [] then []
    else
      var init, last := xs[..|xs| - 1], xs[|xs| - 1];
      assert xs == init + [last];
      assert forall y :: y in init ==> y in xs;
      InsertByScore(ranks, last, SortByScore(ranks, init))
  }

  /** Inserting an index larger than all present keeps the order: it goes after its equals. */
  lemma {:induction false} InsertKeepsRanked(ranks: map<nat, nat>, x: nat, ys: seq<nat>)
    requires x in ranks && forall y :: y in ys ==> y in ranks && y < x
    requires Ranked(ranks, ys)
    ensures Ranked(ranks, InsertByScore(ranks, x, ys))
  {
    if ys != [] && ranks[ys[0]] >= ranks[x] {
      var rest := InsertByScore(ranks, x, ys[1..]);
      InsertKeepsRanked(ranks, x, ys[1..]);
      assert multiset(rest) == multiset(ys[1..]) + multiset{x};
      forall k | 0 <= k < |rest| ensures Precedes(ranks, ys[0], rest[k]) {
        assert rest[k] in multiset(rest);
        if rest[k] != x {
          assert rest[k] in ys[1..];
        }
      }
    }
  }

  /** Sorting keys listed in ascending order gives decreasing score, ties by increasing index. */
  lemma {:induction false} SortIsRanked(ranks: map<nat, nat>, xs: seq<nat>)
    requires forall x :: x in xs ==> x in ranks
    requires StrictlyIncreasing(xs)
    ensures Ranked(ranks, SortByScore(ranks, xs))
  {
    if xs != [] {
      var init, last := xs[..|xs| - 1], xs[|xs| - 1];
      assert xs == init + [last];
      SortIsRanked(ranks, init);
      var sorted := SortByScore(ranks, init);
      forall y | y in sorted ensures y in ranks && y < last {
        assert y in multiset(sorted);
      }
      InsertKeepsRanked(ranks, last, sorted);
    }
  }

  /** `nlargest(length, ranks, key=ranks.get)`, which Python documents as
      `sorted(ranks, key=ranks.get, reverse=True)[:length]` over the keys in iteration order. */
  function NLargest(length: nat, ranks: map<nat, nat>, n: nat): (r: seq<nat>)
    ensures |r| <= length
  {
    var sorted := ByScore(ranks, n);
    if length <= |sorted| then sorted[..length] else sorted
  }

  /** The keys of the rank map in iteration order, sorted by decreasing score. */
  function ByScore(ranks: map<nat, nat>, n: nat): (r: seq<nat>)
    ensures forall k :: k in r <==> k in ranks && k < n
  {
    SortByScore(ranks, AscendingMembers(ranks.Keys, n))
  }

  /** In a ranked sequence every element of a prefix precedes every element outside it. */
  lemma PrefixPrecedesRest(ranks: map<nat, nat>, sorted: seq<nat>, m: nat, x: nat, y: nat)
    requires Ranked(ranks, sorted) && m <= |sorted|
    requires x in sorted[..m] && y in sorted && y !in sorted[..m]
    ensures Precedes(ranks, x, y)
  {
    var a :| 0 <= a < m && sorted[a] == x;
    var b :| 0 <= b < |sorted| && sorted[b] == y;
    assert b >= m;
  }

  /** The ranked listing that `nlargest` cuts: all keys, by decreasing score, ties by increasing index. */
  lemma RankedKeys(ranks: map<nat, nat>, n: nat)
    requires forall k :: k in ranks ==> k < n
    ensures var sorted := ByScore(ranks, n);
      && |sorted| == |ranks|
      && (forall k :: k in sorted <==> k in ranks)
      && Ranked(ranks, sorted)
  {
    var keys := AscendingMembers(ranks.Keys, n);
    var sorted := SortByScore(ranks, keys);
    AscendingMembersCount(ranks.Keys, n);
    assert |multiset(sorted)| == |multiset(keys)|;
    SortIsRanked(ranks, keys);
  }

  /** As many indices are selected as requested, or as there are ranked sentences when fewer. */
  lemma NLargestCount(length: nat, ranks: map<nat, nat>, n: nat)
    requires forall k :: k in ranks ==> k < n
    ensures |NLargest(length, ranks, n)| == if length <= |ranks| then length else |ranks|
  {
    RankedKeys(ranks, n);
  }

  /** A prefix of a ranked sequence has no repetitions. */
  lemma RankedPrefix(ranks: map<nat, nat>, sorted: seq<nat>, m: nat)
    requires Ranked(ranks, sorted) && m <= |sorted|
    ensures Distinct(sorted[..m])
  {
    forall i, j | 0 <= i < j < m ensures sorted[..m][i] != sorted[..m][j] {
      assert Precedes(ranks, sorted[i], sorted[j]);
    }
  }

  /** The selected indices are distinct keys of the rank map, hence sentence indices below `n`. */
  lemma NLargestDistinctKeys(length: nat, ranks: map<nat, nat>, n: nat)
    requires forall k :: k in ranks ==> k < n
    ensures var sel := NLargest(length, ranks, n);
      && (forall k :: 0 <= k < |sel| ==> sel[k] in ranks && sel[k] < n)
      && Distinct(sel)
  {
    RankedKeys(ranks, n);
    var sorted := ByScore(ranks, n);
    var sel := NLargest(length, ranks, n);
    assert sel == sorted[..|sel|];
    RankedPrefix(ranks, sorted, |sel|);
    forall k | 0 <= k < |sel| ensures sel[k] in ranks {
      assert sorted[k] in sorted;
    }
  }

  /** Every selected index beats every ranked index left out: a higher score, or the same score and a
      lower index. */
  lemma NLargestIsTopK(length: nat, ranks: map<nat, nat>, n: nat, x: nat, y: nat)
    requires forall k :: k in ranks ==> k < n
    requires x in NLargest(length, ranks, n) && y in ranks && y !in NLargest(length, ranks, n)
    ensures ranks[x] > ranks[y] || (ranks[x] == ranks[y] && x < y)
  {
    RankedKeys(ranks, n);
    var sorted := ByScore(ranks, n);
    var sel := NLargest(length, ranks, n);
    assert sel == sorted[..|sel|];
    PrefixPrecedesRest(ranks, sorted, |sel|, x, y);
  }

  /** `sorted(indices)` for distinct indices below `n`. */
  function SortedIndices(indices: seq<nat>, n: nat): (r: seq<nat>)
    ensures StrictlyIncreasing(r)
    ensures forall i :: i in r <==> i in indices && i < n
  {
    AscendingMembers(Elements(indices), n)
  }

  /** The ascending listing is the one ascending rearrangement of the indices. */
  lemma SortedIndicesIsSorted(indices: seq<nat>, n: nat)
    requires Distinct(indices) && forall k :: 0 <= k < |indices| ==> indices[k] < n
    ensures StrictlyIncreasing(SortedIndices(indices, n))
    ensures multiset(SortedIndices(indices, n)) == multiset(indices)
  {
    var r := SortedIndices(indices, n);
    DistinctMultiset(indices);
    DistinctMultiset(r);
    assert Elements(r) == Elements(indices);
  }

  /** `compile_summary`: refuse a request for more sentences than there are; otherwise join, with no
      separator, the sentences at the selected indices in ascending order. */
  function CompileSummary(ranks: map<nat, nat>, sentences: seq<string>, length: nat): (r: Result<string>)
    requires forall k :: k in ranks ==> k < |sentences|
    ensures r.Err? <==> length > |sentences|
    ensures r.Err? ==> r.error == RequestExceedsAvailable
    ensures length == 0 ==> r == Ok([])
  {
    if length > |sentences| then Err(RequestExceedsAvailable)
    else
      var order := SortedIndices(NLargest(length, ranks, |sentences|), |sentences|);
      assert forall k :: 0 <= k < |order| ==> order[k] in order;
      Ok(Join(Pick(sentences, order)))
  }

  /** The summary joins the selected sentences in document order: the selection sorted ascending picks
      a subsequence of the sentences, as many as requested or as there are ranked sentences. */
  lemma SummaryKeepsDocumentOrder(ranks: map<nat, nat>, sentences: seq<string>, length: nat)
    requires forall k :: k in ranks ==> k < |sentences|
    requires length <= |sentences|
    ensures var sel := NLargest(length, ranks, |sentences|);
      var order := SortedIndices(sel, |sentences|);
      && StrictlyIncreasing(order)
      && multiset(order) == multiset(sel)
      && (forall k :: 0 <= k < |order| ==> order[k] < |sentences|)
      && |order| == (if length <= |ranks| then length else |ranks|)
      && IsSubsequence(Pick(sentences, order), sentences)
      && CompileSummary(ranks, sentences, length) == Ok(Join(Pick(sentences, order)))
  {
    var n := |sentences|;
    var sel := NLargest(length, ranks, n);
    var order := SortedIndices(sel, n);
    NLargestCount(length, ranks, n);
    NLargestDistinctKeys(length, ranks, n);
    SortedIndicesIsSorted(sel, n);
    assert |order| == |sel| by {
      assert |multiset(order)| == |multiset(sel)|;
    }
    assert forall k :: 0 <= k < |order| ==> order[k] in order;
    PickIsSubsequence(sentences, order);
  }

  /** The indices 0, 1, ..., n - 1. */
  function Indices(n: nat): (r: seq<nat>)
    ensures |r| == n && forall i :: 0 <= i < n ==> r[i] == i
  {
    seq(n, i => i)
  }

  /** Listing every index below `n` in ascending order gives 0, 1, ..., n - 1. */
  lemma {:induction false} AscendingMembersAll(keys: set<nat>, n: nat)
    requires forall i :: 0 <= i < n ==> i in keys
    ensures AscendingMembers(keys, n) == Indices(n)
  {
    if n > 0 {
      AscendingMembersAll(keys, n - 1);
      assert Indices(n - 1) + [n - 1] == Indices(n);
    }
  }

  /** When every index below `n` is ranked and `n` are requested, every index is selected. */
  lemma AllSelected(ranks: map<nat, nat>, n: nat)
    requires forall k :: k in ranks <==> k < n
    ensures forall i :: 0 <= i < n ==> i in Elements(NLargest(n, ranks, n))
  {
    var keys := AscendingMembers(ranks.Keys, n);
    var sorted := ByScore(ranks, n);
    assert NLargest(n, ranks, n) == sorted by {
      assert |sorted| <= n by {
        assert |multiset(sorted)| == |multiset(keys)|;
      }
    }
    assert forall i :: 0 <= i < n ==> i in Elements(sorted) by {
      forall i | 0 <= i < n ensures i in Elements(sorted) {
        assert i in keys;
      }
    }
  }

  /** When every sentence is ranked and all of them are requested, the summary is the whole text. */
  lemma FullSummary(ranks: map<nat, nat>, sentences: seq<string>)
    requires forall k :: k in ranks <==> k < |sentences|
    ensures CompileSummary(ranks, sentences, |sentences|) == Ok(Join(sentences))
  {
    var n := |sentences|;
    AllSelected(ranks, n);
    AscendingMembersAll(Elements(NLargest(n, ranks, n)), n);
    PickAll(sentences);
  }

  lemma PickAll<T>(s: seq<T>)
    ensures Pick(s, Indices(|s|)) == s
  {
  }
}

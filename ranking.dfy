/**
 * The lexical stage of retrieval: the overlap between the query's words and
 * a record's words, the 10% threshold, and the stable reverse sort by score.
 */
module Ranking {
  import opened Text
  import opened Records
  import opened Store

  /** `set(query.lower().split())`. */
  function QueryWords(query: string): set<string> {
    WordSet(Lower(query))
  }

  /** How many query words occur among the record's words. */
  function Overlap(qw: set<string>, m: MemoryRecord): nat {
    |qw * WordSet(Lower(ContentOf(m)))|
  }

  function Max(a: nat, b: nat): nat {
    if a >= b then a else b
  }

  /**
   * `overlap / max(len(query_words), 1) > 0.1`, in integers: the two
   * agree because the divisor is positive.
   */
  predicate Passes(qw: set<string>, overlap: nat) {
    10 * overlap > Max(|qw|, 1)
  }

  /** A candidate kept by the filter, with its overlap and its position in the search answer. */
  datatype Scored = Scored(item: Item, overlap: nat, pos: nat)

  /** The overlap of every candidate with the query words, in candidate order. */
  function Scores(qw: set<string>, cands: seq<Item>): (s: seq<nat>)
    ensures |s| == |cands|
    decreases |cands|
  {
    if cands == [] then []
    else Scores(qw, cands[..|cands| - 1]) + [Overlap(qw, cands[|cands| - 1].value)]
  }

  /** The score of candidate `i` is its overlap. */
  lemma {:induction false} ScoreOf(qw: set<string>, cands: seq<Item>, i: nat)
    requires i < |cands|
    ensures Scores(qw, cands)[i] == Overlap(qw, cands[i].value)
    decreases |cands|
  {
    var n := |cands| - 1;
    if i < n {
      ScoreOf(qw, cands[..n], i);
      assert cands[..n][i] == cands[i];
    }
  }

  lemma ScoresAreOverlaps(qw: set<string>, cands: seq<Item>)
    ensures forall i :: 0 <= i < |cands| ==> Scores(qw, cands)[i] == Overlap(qw, cands[i].value)
  {
    forall i | 0 <= i < |cands|
      ensures Scores(qw, cands)[i] == Overlap(qw, cands[i].value)
    {
      ScoreOf(qw, cands, i);
    }
  }

  /**
   * The filter loop after its first `n` candidates, given their overlaps:
   * every one of them that passes the threshold, scored, in candidate order.
   */
  function Kept(qw: set<string>, cands: seq<Item>, scores: seq<nat>, n: nat): (r: seq<Scored>)
    requires n <= |cands| == |scores|
    ensures forall k :: 0 <= k < |r| ==>
      r[k].pos < n && r[k].item == cands[r[k].pos] && r[k].overlap == scores[r[k].pos] && Passes(qw, r[k].overlap)
    ensures forall k, l :: 0 <= k < l < |r| ==> r[k].pos < r[l].pos
    decreases n
  {
    if n == 0 then []
    else
      var prev := Kept(qw, cands, scores, n - 1);
      if Passes(qw, scores[n - 1]) then prev + [Scored(cands[n - 1], scores[n - 1], n - 1)] else prev
  }

  /** One more candidate examined by the filter loop. */
  lemma KeptStep(qw: set<string>, cands: seq<Item>, scores: seq<nat>, i: nat, o: nat)
    requires i < |cands| == |scores| && scores[i] == o
    ensures Kept(qw, cands, scores, i + 1) ==
      Kept(qw, cands, scores, i) + (if Passes(qw, o) then [Scored(cands[i], o, i)] else [])
  {
  }

  /**
   * The whole filter loop: every candidate that passes the threshold,
   * with its overlap and its position, in candidate order.
   */
  function Relevant(qw: set<string>, cands: seq<Item>): (r: seq<Scored>)
    ensures forall k :: 0 <= k < |r| ==>
      r[k].pos < |cands| && r[k].item == cands[r[k].pos] &&
      r[k].overlap == Overlap(qw, r[k].item.value) && Passes(qw, r[k].overlap)
    ensures forall k, l :: 0 <= k < l < |r| ==> r[k].pos < r[l].pos
  {
    ScoresAreOverlaps(qw, cands);
    Kept(qw, cands, Scores(qw, cands), |cands|)
  }

  /** Conversely, every candidate that passes the threshold is kept, with its overlap `o`. */
  lemma RelevantComplete(qw: set<string>, cands: seq<Item>, i: nat, o: nat)
    requires i < |cands| && o == Overlap(qw, cands[i].value) && Passes(qw, o)
    ensures Scored(cands[i], o, i) in Relevant(qw, cands)
  {
    ScoreOf(qw, cands, i);
    KeptComplete(qw, cands, Scores(qw, cands), i, |cands|);
  }

  lemma {:induction false} KeptComplete(qw: set<string>, cands: seq<Item>, scores: seq<nat>, i: nat, n: nat)
    requires i < n <= |cands| == |scores| && Passes(qw, scores[i])
    ensures Scored(cands[i], scores[i], i) in Kept(qw, cands, scores, n)
    decreases n
  {
    if i < n - 1 {
      KeptComplete(qw, cands, scores, i, n - 1);
    }
  }

  /** `a` sorts before `b`: a higher overlap first, and on a tie the earlier candidate first. */
  predicate RankedBefore(a: Scored, b: Scored) {
    a.overlap > b.overlap || (a.overlap == b.overlap && a.pos < b.pos)
  }

  predicate SortedByRank(s: seq<Scored>) {
    forall i, j :: 0 <= i < j < |s| ==> RankedBefore(s[i], s[j])
  }

  predicate PositionsIncreasing(s: seq<Scored>) {
    forall i, j :: 0 <= i < j < |s| ==> s[i].pos < s[j].pos
  }

  /**
   * `filtered_results.sort(key=score, reverse=True)`: Python's sort is
   * stable, also in reverse, so equal scores keep their candidate order.
   * Written as an insertion sort; the result is a permutation of the input
   * ordered by decreasing overlap and, on ties, increasing position.
   */
  method SortByRelevance(xs: seq<Scored>) returns (ys: seq<Scored>)
    requires PositionsIncreasing(xs)
    ensures SortedByRank(ys)
    ensures multiset(ys) == multiset(xs)
  {
    ys := [];
    var i := 0;
    while i < |xs|
      invariant 0 <= i <= |xs|
      invariant SortedByRank(ys)
      invariant multiset(ys) == multiset(xs[..i])
      invariant i < |xs| ==> forall k :: 0 <= k < |ys| ==> ys[k].pos < xs[i].pos
    {
      var x := xs[i];
      var j := InsertionPoint(ys, x);
      InsertStep(xs, i, ys, j);
      ys := ys[..j] + [x] + ys[j..];
      i := i + 1;
    }
    assert xs[..i] == xs;
  }

  /** One round of the insertion sort keeps its loop invariant. */
  lemma InsertStep(xs: seq<Scored>, i: nat, ys: seq<Scored>, j: nat)
    requires PositionsIncreasing(xs) && i < |xs|
    requires SortedByRank(ys) && multiset(ys) == multiset(xs[..i])
    requires forall k :: 0 <= k < |ys| ==> ys[k].pos < xs[i].pos
    requires j <= |ys| && forall k :: 0 <= k < j ==> ys[k].overlap >= xs[i].overlap
    requires j < |ys| ==> ys[j].overlap < xs[i].overlap
    ensures var zs := ys[..j] + [xs[i]] + ys[j..];
      SortedByRank(zs) && multiset(zs) == multiset(xs[..i + 1]) &&
      (i + 1 < |xs| ==> forall k :: 0 <= k < |zs| ==> zs[k].pos < xs[i + 1].pos)
  {
    InsertKeepsSorted(ys, j, xs[i]);
    InsertMultiset(ys, j, xs[i]);
    assert xs[..i + 1] == xs[..i] + [xs[i]];
    if i + 1 < |xs| {
      assert xs[i].pos < xs[i + 1].pos;
    }
  }

  /** The first position whose element scores strictly below `x`, or the end. */
  method InsertionPoint(ys: seq<Scored>, x: Scored) returns (j: nat)
    ensures j <= |ys|
    ensures forall k :: 0 <= k < j ==> ys[k].overlap >= x.overlap
    ensures j < |ys| ==> ys[j].overlap < x.overlap
  {
    j := 0;
    while j < |ys| && ys[j].overlap >= x.overlap
      invariant 0 <= j <= |ys|
      invariant forall k :: 0 <= k < j ==> ys[k].overlap >= x.overlap
    {
      j := j + 1;
    }
  }

  /** Inserting `x` after every element that does not score below it keeps the order. */
  lemma InsertKeepsSorted(ys: seq<Scored>, j: nat, x: Scored)
    requires SortedByRank(ys) && j <= |ys|
    requires forall k :: 0 <= k < j ==> ys[k].overlap >= x.overlap
    requires j < |ys| ==> ys[j].overlap < x.overlap
    requires forall k :: 0 <= k < |ys| ==> ys[k].pos < x.pos
    ensures SortedByRank(ys[..j] + [x] + ys[j..])
    ensures forall k :: 0 <= k < |ys| + 1 ==> (ys[..j] + [x] + ys[j..])[k].pos <= x.pos
  {
    var zs := ys[..j] + [x] + ys[j..];
    assert forall k :: 0 <= k < j ==> zs[k] == ys[k];
    assert zs[j] == x;
    assert forall k :: j < k < |zs| ==> zs[k] == ys[k - 1];
    forall a, b | 0 <= a < b < |zs| ensures RankedBefore(zs[a], zs[b]) {
      if b < j {
        assert RankedBefore(ys[a], ys[b]);
      } else if a < j && b > j {
        assert RankedBefore(ys[a], ys[b - 1]);
      } else if a == j && b > j {
        if j < b - 1 { assert RankedBefore(ys[j], ys[b - 1]); }
      } else if a > j {
        assert RankedBefore(ys[a - 1], ys[b - 1]);
      }
    }
  }

  lemma InsertMultiset(ys: seq<Scored>, j: nat, x: Scored)
    requires j <= |ys|
    ensures multiset(ys[..j] + [x] + ys[j..]) == multiset(ys) + multiset{x}
  {
    assert ys == ys[..j] + ys[j..];
  }

  /**
   * The order is total on candidates with distinct positions, so there is
   * only one sorted arrangement of a filter result: the model of the sort
   * gives the same list as Python's.
   */
  lemma {:induction false} SortedUnique(a: seq<Scored>, b: seq<Scored>)
    requires SortedByRank(a) && SortedByRank(b) && multiset(a) == multiset(b)
    ensures a == b
    decreases |a|
  {
    if a != [] {
      assert |b| == |multiset(b)| == |a|;
      SameHead(a, b);
      DropHead(a);
      DropHead(b);
      SortedUnique(a[1..], b[1..]);
      assert a == [a[0]] + a[1..] && b == [b[0]] + b[1..];
    }
  }

  /** Two sorted arrangements of the same elements start with the same element. */
  lemma SameHead(a: seq<Scored>, b: seq<Scored>)
    requires SortedByRank(a) && SortedByRank(b) && multiset(a) == multiset(b) && a != [] && b != []
    ensures a[0] == b[0]
  {
    assert b[0] in multiset(a) && a[0] in multiset(b);
    var i :| 0 <= i < |a| && a[i] == b[0];
    var j :| 0 <= j < |b| && b[j] == a[0];
  }

  lemma DropHead(a: seq<Scored>)
    requires a != []
    ensures multiset(a[1..]) == multiset(a) - multiset{a[0]}
    ensures SortedByRank(a) ==> SortedByRank(a[1..])
  {
    assert a == [a[0]] + a[1..];
  }

  /** A ranking of the candidates: the filter result, sorted. */
  ghost predicate IsRanking(qw: set<string>, cands: seq<Item>, ranked: seq<Scored>) {
    SortedByRank(ranked) && multiset(ranked) == multiset(Relevant(qw, cands))
  }

  /** Every element of a ranking is a scored candidate that passed the threshold. */
  lemma RankedFromCandidates(qw: set<string>, cands: seq<Item>, ranked: seq<Scored>, k: nat)
    requires IsRanking(qw, cands, ranked) && k < |ranked|
    ensures ranked[k].pos < |cands| && ranked[k].item == cands[ranked[k].pos]
    ensures ranked[k].overlap == Overlap(qw, ranked[k].item.value) && Passes(qw, ranked[k].overlap)
  {
    assert ranked[k] in multiset(Relevant(qw, cands));
  }
}

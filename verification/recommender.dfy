/**
 The recommendation policy of `BookRecommender.get_book_recommendations`:
 with no books nothing is vectorized and nothing is recommended; otherwise
 every book is zipped with its similarity score, the pairs are sorted by
 score, highest first and stably, and the first five books are returned.
 The scores themselves come from TF-IDF vectors and cosine similarity and are
 taken here as given.
 */
module Recommender {
  import opened Ints
  import opened Options
  import opened BookModel
  import opened Corpus
  import opened StableSort

  /** At most this many books are recommended. */
  const MaxRecommendations: nat := 5

  /** The zip of store positions with scores. */
  function Entries(scores: seq<real>): (r: seq<Entry>)
    ensures |r| == |scores|
    ensures forall i :: 0 <= i < |r| ==> r[i] == Entry(i, scores[i])
    ensures InStoreOrder(r)
  {
    seq(|scores|, i requires 0 <= i < |scores| => Entry(i, scores[i]))
  }

  /** The store positions of a sequence of entries. */
  function Positions(s: seq<Entry>): (r: seq<nat>)
    ensures |r| == |s|
    ensures forall k :: 0 <= k < |s| ==> r[k] == s[k].index
  {
    seq(|s|, k requires 0 <= k < |s| => s[k].index)
  }

  /**
   What Python's stable `sorted(..., reverse=True)` promises of the store
   positions it returns, stated independently of any sorting algorithm:
   every position exactly once, scores never increasing, and equal scores in
   store order.
   */
  ghost predicate IsStableDescending(scores: seq<real>, order: seq<nat>) {
    && |order| == |scores|
    && (forall k :: 0 <= k < |order| ==> order[k] < |scores|)
    && (forall i :: 0 <= i < |scores| ==> i in order)
    && (forall k, l :: 0 <= k < l < |order| ==> scores[order[k]] >= scores[order[l]])
    && (forall k, l :: 0 <= k < l < |order| && scores[order[k]] == scores[order[l]] ==> order[k] < order[l])
  }

  /** The store positions in ranked order. */
  function Ranking(scores: seq<real>): (order: seq<nat>)
    ensures IsStableDescending(scores, order)
  {
    var sorted := SortDesc(Entries(scores));
    assert forall k :: 0 <= k < |sorted| ==>
      sorted[k].index < |scores| && sorted[k].score == scores[sorted[k].index] by {
      forall k | 0 <= k < |sorted|
        ensures sorted[k].index < |scores| && sorted[k].score == scores[sorted[k].index]
      {
        assert sorted[k] in multiset(Entries(scores));
      }
    }
    assert forall i :: 0 <= i < |scores| ==> i in Positions(sorted) by {
      forall i | 0 <= i < |scores|
        ensures i in Positions(sorted)
      {
        assert Entries(scores)[i] in multiset(sorted);
        var k :| 0 <= k < |sorted| && sorted[k] == Entries(scores)[i];
        assert Positions(sorted)[k] == i;
      }
    }
    Positions(sorted)
  }

  /** The entries a sequence of store positions stands for. */
  function Lift(scores: seq<real>, order: seq<nat>): (r: seq<Entry>)
    requires forall k :: 0 <= k < |order| ==> order[k] < |scores|
    ensures |r| == |order|
    ensures forall k :: 0 <= k < |order| ==> r[k] == Entry(order[k], scores[order[k]])
  {
    seq(|order|, k requires 0 <= k < |order| => Entry(order[k], scores[order[k]]))
  }

  /** The zipped pairs are exactly the entries that carry their own position's score. */
  lemma EntriesMembers(scores: seq<real>, x: Entry)
    ensures x in Entries(scores) <==> x.index < |scores| && x.score == scores[x.index]
  {
    if x.index < |scores| && x.score == scores[x.index] {
      assert Entries(scores)[x.index] == x;
    }
  }

  /** A stable descending order of positions, read as entries, is ranked. */
  lemma LiftRanked(scores: seq<real>, order: seq<nat>)
    requires IsStableDescending(scores, order)
    ensures Ranked(Lift(scores, order))
  {
    var lifted := Lift(scores, order);
    forall k, l | 0 <= k < l < |lifted|
      ensures Before(lifted[k], lifted[l])
    {
    }
  }

  /** A stable descending order of positions, read as entries, has the members of the zip. */
  lemma LiftMembers(scores: seq<real>, order: seq<nat>, x: Entry)
    requires IsStableDescending(scores, order)
    ensures x in Lift(scores, order) <==> x in Entries(scores)
  {
    var lifted := Lift(scores, order);
    EntriesMembers(scores, x);
    if x in Entries(scores) {
      assert x.index in order;
      var k :| 0 <= k < |order| && order[k] == x.index;
      assert lifted[k] == x;
    }
  }

  /**
   There is only one stable descending order of the store: whatever sorting
   algorithm produced `order`, it is the order `Ranking` computes.
   */
  lemma RankingUnique(scores: seq<real>, order: seq<nat>)
    requires IsStableDescending(scores, order)
    ensures order == Ranking(scores)
  {
    var lifted := Lift(scores, order);
    var sorted := SortDesc(Entries(scores));
    LiftRanked(scores, order);
    forall x
      ensures x in lifted <==> x in sorted
    {
      LiftMembers(scores, order, x);
      assert x in sorted <==> x in multiset(Entries(scores));
    }
    RankedUnique(lifted, sorted);
    assert order == Positions(lifted);
  }

  /**
   The store positions of the recommended books: the first five of the
   ranking. They are distinct positions, in ranked order, and no position left
   out ranks ahead of one taken.
   */
  function TopIndices(scores: seq<real>): (top: seq<nat>)
    ensures |top| == Min(MaxRecommendations, |scores|)
    ensures Below(top, |scores|) && Distinct(top)
    ensures forall k, l :: 0 <= k < l < |top| ==> scores[top[k]] >= scores[top[l]]
    ensures forall k, l :: 0 <= k < l < |top| && scores[top[k]] == scores[top[l]] ==> top[k] < top[l]
    ensures forall i, k :: 0 <= i < |scores| && i !in top && 0 <= k < |top| ==>
      scores[i] <= scores[top[k]] && (scores[i] == scores[top[k]] ==> top[k] < i)
  {
    var order := Ranking(scores);
    var top := order[..Min(MaxRecommendations, |scores|)];
    assert forall i :: 0 <= i < |scores| && i !in top ==>
      exists p :: |top| <= p < |order| && order[p] == i by {
      forall i | 0 <= i < |scores| && i !in top
        ensures exists p :: |top| <= p < |order| && order[p] == i
      {
        assert i in order;
        var p :| 0 <= p < |order| && order[p] == i;
      }
    }
    top
  }

  /** The books at the given store positions. */
  function Pick(books: seq<Book>, positions: seq<nat>): (r: seq<Book>)
    requires Below(positions, |books|)
    ensures |r| == |positions|
    ensures forall k :: 0 <= k < |positions| ==> r[k] == books[positions[k]]
  {
    seq(|positions|, k requires 0 <= k < |positions| => books[positions[k]])
  }

  /** No position occurs twice. */
  ghost predicate Distinct(positions: seq<nat>) {
    forall k, l :: 0 <= k < l < |positions| ==> positions[k] != positions[l]
  }

  /** Every position is below `bound`. */
  ghost predicate Below(positions: seq<nat>, bound: nat) {
    forall k :: 0 <= k < |positions| ==> positions[k] < bound
  }

  /**
   Around one occurrence of `bound` in a list of distinct positions up to
   `bound`, the other positions are distinct and below `bound`.
   */
  lemma DropPosition(before: seq<nat>, bound: nat, after: seq<nat>)
    requires Below(before + [bound] + after, bound + 1)
    requires Distinct(before + [bound] + after)
    ensures Below(before, bound) && Below(after, bound)
    ensures Distinct(before + after)
  {
    var all := before + [bound] + after;
    assert all[|before|] == bound;
    forall k | 0 <= k < |before|
      ensures before[k] < bound
    {
      assert before[k] == all[k];
    }
    forall k | 0 <= k < |after|
      ensures after[k] < bound
    {
      assert after[k] == all[|before| + 1 + k];
    }
    var rest := before + after;
    forall k, l | 0 <= k < l < |rest|
      ensures rest[k] != rest[l]
    {
      var k' := if k < |before| then k else k + 1;
      var l' := if l < |before| then l else l + 1;
      assert rest[k] == all[k'] && rest[l] == all[l'];
    }
  }

  /**
   Picking books at distinct positions takes each store entry at most once:
   the picked books form a sub-multiset of the store.
   */
  lemma {:induction false} PickDistinctFromStore(books: seq<Book>, positions: seq<nat>)
    requires Below(positions, |books|)
    requires Distinct(positions)
    ensures multiset(Pick(books, positions)) <= multiset(books)
    decreases |books|, 1
  {
    if |books| > 0 {
      var last := |books| - 1;
      if last in positions {
        var p :| 0 <= p < |positions| && positions[p] == last;
        assert positions == positions[..p] + [last] + positions[p + 1..];
        PickLastFromStore(books, positions[..p], positions[p + 1..]);
      } else {
        PickOmitLastFromStore(books, positions);
      }
    }
  }

  /** The case of `PickDistinctFromStore` where the last book of the store is not picked. */
  lemma {:induction false} PickOmitLastFromStore(books: seq<Book>, positions: seq<nat>)
    requires |books| > 0
    requires Below(positions, |books|)
    requires Distinct(positions)
    requires |books| - 1 !in positions
    ensures multiset(Pick(books, positions)) <= multiset(books)
    decreases |books|, 0
  {
    var last := |books| - 1;
    assert Below(positions, last) by {
      forall k | 0 <= k < |positions|
        ensures positions[k] < last
      {
        assert positions[k] in positions;
      }
    }
    PickDistinctFromStore(books[..last], positions);
    assert Pick(books, positions) == Pick(books[..last], positions);
    assert books == books[..last] + [books[last]];
  }

  /** The case of `PickDistinctFromStore` where the last book of the store is picked. */
  lemma {:induction false} PickLastFromStore(books: seq<Book>, before: seq<nat>, after: seq<nat>)
    requires |books| > 0
    requires Below(before + [|books| - 1] + after, |books|)
    requires Distinct(before + [|books| - 1] + after)
    ensures multiset(Pick(books, before + [|books| - 1] + after)) <= multiset(books)
    decreases |books|, 0
  {
    var last := |books| - 1;
    DropPosition(before, last, after);
    PickDistinctFromStore(books[..last], before + after);
    PickDropLast(books, before, after);
    assert books == books[..last] + [books[last]];
  }

  /**
   When the last book of the store is picked between `before` and `after`,
   the picks are that book plus what the other positions pick from the rest
   of the store.
   */
  lemma PickDropLast(books: seq<Book>, before: seq<nat>, after: seq<nat>)
    requires |books| > 0
    requires Below(before, |books| - 1) && Below(after, |books| - 1)
    ensures multiset(Pick(books, before + [|books| - 1] + after))
      == multiset(Pick(books[..|books| - 1], before + after)) + multiset{books[|books| - 1]}
  {
    var last := |books| - 1;
    assert Pick(books[..last], before + after) == Pick(books, before) + Pick(books, after);
    assert Pick(books, before + [last] + after) == Pick(books, before) + [books[last]] + Pick(books, after);
  }

  /**
   `sorted(zip(books, scores), ...)[:5]` stripped of the scores: the books
   at the top positions of the ranking of the zipped prefix. Each book is
   taken from a different place in the store.
   */
  function RankBooks(books: seq<Book>, scores: seq<real>): (r: seq<Book>)
    ensures |r| == Min(MaxRecommendations, Min(|books|, |scores|))
    ensures multiset(r) <= multiset(books)
  {
    var top := TopIndices(scores[..Min(|books|, |scores|)]);
    PickDistinctFromStore(books, top);
    Pick(books, top)
  }

  /**
   Whatever stable descending sort is used, the recommendations are the books
   at its first five positions.
   */
  lemma RankBooksIsStableSortPrefix(books: seq<Book>, scores: seq<real>, order: seq<nat>)
    requires IsStableDescending(scores[..Min(|books|, |scores|)], order)
    ensures |RankBooks(books, scores)| == Min(MaxRecommendations, |order|)
    ensures forall k :: 0 <= k < |RankBooks(books, scores)| ==> RankBooks(books, scores)[k] == books[order[k]]
  {
    RankingUnique(scores[..Min(|books|, |scores|)], order);
  }

  /** Store positions `0 .. n-1` in store order. */
  function StoreOrder(n: nat): (order: seq<nat>)
    ensures |order| == n
    ensures forall k :: 0 <= k < n ==> order[k] == k
  {
    seq(n, k requires 0 <= k < n => k)
  }

  /** Every book scores the same, as happens when the query shares no word with any summary. */
  ghost predicate AllTied(scores: seq<real>) {
    forall i :: 0 <= i < |scores| ==> scores[i] == scores[0]
  }

  /**
   When every score ties (a query sharing no word with any summary, or an
   empty query), the first five books of the store come back in store order.
   */
  lemma AllTiedKeepsStoreOrder(books: seq<Book>, scores: seq<real>)
    requires AllTied(scores)
    ensures RankBooks(books, scores) == books[..Min(MaxRecommendations, Min(|books|, |scores|))]
  {
    var order := StoreOrder(Min(|books|, |scores|));
    forall i | 0 <= i < |order|
      ensures i in order
    {
      assert order[i] == i;
    }
    RankBooksIsStableSortPrefix(books, scores, order);
  }

  /**
   The whole of `get_book_recommendations`: build the documents; with no
   books return nothing; otherwise score the documents and rank the books.
   `similarity` stands for TF-IDF vectorization of the documents followed by
   the cosine similarity of the query's vector with each book's.
   */
  function GetRecommendations(books: seq<Book>, userInput: string, similarity: seq<string> -> seq<real>): (r: seq<Book>)
    ensures |books| == 0 ==> r == []
    ensures |books| > 0 ==> r == RankBooks(books, similarity(Documents(books, userInput).value))
    ensures |r| <= MaxRecommendations && |r| <= |books|
    ensures multiset(r) <= multiset(books)
  {
    match Documents(books, userInput)
    case None => []
    case Some(documents) => RankBooks(books, similarity(documents))
  }
}

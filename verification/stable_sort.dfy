/**
 Python's `sorted(pairs, key=score, reverse=True)` over (store position, score)
 pairs, modelled as an insertion sort that compares scores only. Python's sort
 is stable even with `reverse=True`, so pairs with equal scores keep their store
 order; the module proves that the insertion sort yields exactly that order,
 and that the order is unique.
 */
module StableSort {

  /** A zipped pair: the position of a book in the store and its similarity score. */
  datatype Entry = Entry(index: nat, score: real)

  /**
   The order a stable descending sort puts entries in: higher score first, and
   among equal scores the one earlier in the store first. It is a strict total
   order on entries.
   */
  predicate Before(a: Entry, b: Entry) {
    a.score > b.score || (a.score == b.score && a.index < b.index)
  }

  /** Every entry comes strictly `Before` every later one. */
  ghost predicate Ranked(s: seq<Entry>) {
    forall i, j :: 0 <= i < j < |s| ==> Before(s[i], s[j])
  }

  /** Store positions increase along the sequence, as they do in a zip of the store. */
  ghost predicate InStoreOrder(s: seq<Entry>) {
    forall i, j :: 0 <= i < j < |s| ==> s[i].index < s[j].index
  }

  /** A ranked sequence has no entry twice. */
  lemma RankedDistinct(s: seq<Entry>, i: nat, j: nat)
    requires Ranked(s)
    requires i < |s| && j < |s| && i != j
    ensures s[i] != s[j]
  {
    if i < j {
      assert Before(s[i], s[j]);
    } else {
      assert Before(s[j], s[i]);
    }
  }

  /** `Before` is transitive. */
  lemma BeforeTransitive(a: Entry, b: Entry, c: Entry)
    requires Before(a, b) && Before(b, c)
    ensures Before(a, c)
  {
  }

  /** An entry that comes before the head of a ranked sequence can be put in front of it. */
  lemma PrependRanked(e: Entry, s: seq<Entry>)
    requires Ranked(s)
    requires |s| > 0 ==> Before(e, s[0])
    ensures Ranked([e] + s)
  {
    forall k | 0 <= k < |s|
      ensures Before(e, s[k])
    {
      if k > 0 {
        BeforeTransitive(e, s[0], s[k]);
      }
    }
  }

  /**
   Puts `e` in front of the first entry whose score it is at least as high as.
   `e` comes from earlier in the store than everything in `s`, so placing it
   ahead of equal scores is what keeps the sort stable.
   */
  function Insert(e: Entry, s: seq<Entry>): (r: seq<Entry>)
    requires Ranked(s)
    requires forall k :: 0 <= k < |s| ==> e.index < s[k].index
    ensures |r| == |s| + 1
    ensures multiset(r) == multiset(s) + multiset{e}
    ensures Ranked(r)
  {
    if |s| == 0 || e.score >= s[0].score then
      PrependRanked(e, s);
      [e] + s
    else
      var rest := Insert(e, s[1..]);
      assert s == [s[0]] + s[1..];
      assert Before(s[0], rest[0]) by {
        assert rest[0] in multiset(rest);
        if rest[0] != e {
          assert rest[0] in multiset(s[1..]);
          var k :| 0 <= k < |s[1..]| && s[1..][k] == rest[0];
          assert Before(s[0], s[k + 1]);
        }
      }
      PrependRanked(s[0], rest);
      [s[0]] + rest
  }

  /** Sorts entries taken in store order into ranked order, comparing scores only. */
  function SortDesc(s: seq<Entry>): (r: seq<Entry>)
    requires InStoreOrder(s)
    ensures |r| == |s|
    ensures multiset(r) == multiset(s)
    ensures Ranked(r)
  {
    if |s| == 0 then
      []
    else
      var rest := SortDesc(s[1..]);
      assert forall k :: 0 <= k < |rest| ==> s[0].index < rest[k].index by {
        forall k | 0 <= k < |rest|
          ensures s[0].index < rest[k].index
        {
          assert rest[k] in multiset(s[1..]);
          var m :| 0 <= m < |s[1..]| && s[1..][m] == rest[k];
          assert s[0].index < s[m + 1].index;
        }
      }
      assert s == [s[0]] + s[1..];
      Insert(s[0], rest)
  }

  /** A member of the tail of one ranked sequence is in the tail of another with the same head and members. */
  lemma TailMember(a: seq<Entry>, b: seq<Entry>, x: Entry)
    requires Ranked(a) && Ranked(b)
    requires |a| > 0 && |b| > 0 && a[0] == b[0]
    requires forall y :: y in a <==> y in b
    requires x in a[1..]
    ensures x in b[1..]
  {
    var k :| 0 <= k < |a[1..]| && a[1..][k] == x;
    RankedDistinct(a, 0, k + 1);
    assert x in b;
    var m :| 0 <= m < |b| && b[m] == x;
    assert m != 0;
    assert b[1..][m - 1] == x;
  }

  /**
   A ranked order is determined by its elements: two ranked sequences with
   the same members are equal. So any stable descending sort of the store
   agrees with `SortDesc`.
   */
  lemma {:induction false} RankedUnique(a: seq<Entry>, b: seq<Entry>)
    requires Ranked(a) && Ranked(b)
    requires |a| == |b|
    requires forall x :: x in a <==> x in b
    ensures a == b
    decreases |a|
  {
    if |a| > 0 {
      assert a[0] in b;
      assert b[0] in a;
      assert a[0] == b[0];
      forall x
        ensures x in a[1..] <==> x in b[1..]
      {
        if x in a[1..] {
          TailMember(a, b, x);
        }
        if x in b[1..] {
          TailMember(b, a, x);
        }
      }
      RankedUnique(a[1..], b[1..]);
      assert a == [a[0]] + a[1..];
      assert b == [b[0]] + b[1..];
    }
  }
}

/**
 The corpus handed to the TF-IDF vectorizer: one shortened summary per book,
 in store order, with the user's query appended as the last document. With no
 books there is nothing to vectorize and no corpus is built.
 */
module Corpus {
  import opened Options
  import opened BookModel

  /** The shortened summary of every book, in store order. */
  function Summaries(books: seq<Book>): (docs: seq<string>)
    ensures |docs| == |books|
    ensures forall i :: 0 <= i < |books| ==> docs[i] == Shorten(books[i].fullSummary)
  {
    if |books| == 0 then [] else [books[0].Summary()] + Summaries(books[1..])
  }

  /**
   The documents the query is vectorized with: `None` for an empty store,
   otherwise the summaries followed by the query verbatim.
   */
  function Documents(books: seq<Book>, userInput: string): (r: Option<seq<string>>)
    ensures r.None? <==> |books| == 0
    ensures r.Some? ==> |r.value| == |books| + 1
    ensures r.Some? ==> forall i :: 0 <= i < |books| ==> r.value[i] == books[i].Summary()
    ensures r.Some? ==> r.value[|books|] == userInput
  {
    if |books| == 0 then None else Some(Summaries(books) + [userInput])
  }

  /**
   Only the query can be long: every document that comes from a book is a
   shortened summary of at most 103 characters.
   */
  lemma DocumentsBounded(books: seq<Book>, userInput: string)
    requires |books| > 0
    ensures forall i :: 0 <= i < |books| ==> |Documents(books, userInput).value[i]| <= ShortenedLength
  {
  }
}

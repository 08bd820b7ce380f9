/**
 A book record as the scraper hands it to the recommender, and the rule that
 shortens its summary. The shortened summary is both what is displayed and
 what is fed into the text-similarity corpus.
 */
module BookModel {
  import opened Ints

  /** Summaries longer than this many characters are cut. */
  const SummaryLimit: nat := 100

  /** What is appended to a summary that was cut. */
  const Ellipsis: string := "..."

  /** Length of every summary that was cut: the kept prefix plus the ellipsis. */
  const ShortenedLength: nat := SummaryLimit + |Ellipsis|

  /**
   One scraped book. `fullSummary` is the text as scraped (the source keeps it
   in a private field); the rating and review count are carried but never used
   by the recommender.
   */
  datatype Book = Book(
    title: string,
    author: string,
    genre: string,
    rating: real,
    reviews: int,
    url: string,
    fullSummary: string)
  {
    /** The summary as every client of a book sees it: shortened. */
    function Summary(): string {
      Shorten(fullSummary)
    }
  }

  /**
   Keeps a text of at most `SummaryLimit` characters as it is; a longer text
   becomes its first `SummaryLimit` characters followed by the ellipsis.
   */
  function Shorten(text: string): (r: string)
    ensures |text| <= SummaryLimit ==> r == text
    ensures |text| > SummaryLimit ==> |r| == ShortenedLength
    ensures |r| <= ShortenedLength
    ensures r[..Min(|text|, SummaryLimit)] == text[..Min(|text|, SummaryLimit)]
    ensures |text| > SummaryLimit ==> r[SummaryLimit..] == Ellipsis
  {
    if |text| > SummaryLimit then text[..SummaryLimit] + Ellipsis else text
  }

  /**
   Shortening twice is shortening once: a cut summary is 103 characters long,
   so it is cut again at the same place and gets the same ellipsis back.
   */
  lemma ShortenIdempotent(text: string)
    ensures Shorten(Shorten(text)) == Shorten(text)
  {
    if |text| > SummaryLimit {
      var once := Shorten(text);
      assert once[..SummaryLimit] == text[..SummaryLimit];
      assert once == once[..SummaryLimit] + once[SummaryLimit..];
    }
  }

  /**
   The texts that shortening leaves alone: exactly those of at most
   `SummaryLimit` characters and those that already look like a cut summary.
   */
  lemma ShortenFixedPoints(text: string)
    ensures Shorten(text) == text <==>
      |text| <= SummaryLimit || (|text| == ShortenedLength && text[SummaryLimit..] == Ellipsis)
  {
    if |text| > SummaryLimit && |text| == ShortenedLength && text[SummaryLimit..] == Ellipsis {
      assert text == text[..SummaryLimit] + text[SummaryLimit..];
    }
  }

  /**
   Two texts that shorten to the same result agree on everything shortening
   keeps: they are equal if either is short, and share their first
   `SummaryLimit` characters otherwise.
   */
  lemma ShortenKeepsPrefix(a: string, b: string)
    requires Shorten(a) == Shorten(b)
    ensures |a| <= SummaryLimit && |b| <= SummaryLimit ==> a == b
    ensures |a| > SummaryLimit <==> |b| > SummaryLimit
    ensures |a| > SummaryLimit && |b| > SummaryLimit ==> a[..SummaryLimit] == b[..SummaryLimit]
  {
  }
}

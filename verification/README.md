# BookRadar recommendation core in Dafny

This project models the pure part of BookRadar's `BookRecommender`. A book
carries a scraped summary, and that summary is shortened to 100 characters
plus `"..."`. The shortened summaries, in store order, followed by the
user's query, form the corpus that is vectorized with TF-IDF. The books are
zipped with their cosine-similarity scores and sorted by score, highest
first. Python's `sorted` is stable, so equal scores keep store order. The
first five books are returned. With an empty store nothing is vectorized and
the answer is empty.

Modules:

- `BookModel` (`book.dfy`): the `Book` record and the summary-shortening rule.
- `Corpus` (`corpus.dfy`): the documents handed to the vectorizer.
- `StableSort` (`stable_sort.dfy`): the sort over (store position, score)
  pairs. It is an insertion sort that compares scores only, as
  `key=lambda x: x[1]` does. It is proved to produce the unique order that
  is descending by score and in store order among ties.
- `Recommender` (`recommender.dfy`): the ranking and the top-5 cut. It also
  holds the pipeline of `get_book_recommendations`.
- `Ints` (`ints.dfy`): the integer minimum used for the zip and top-5 lengths.
- `Options` (`options.dfy`): the `None`/`Some` wrapper for `_preprocess_input`'s
  optional result.

Similarity scores are an input. `GetRecommendations` takes them as a function
`similarity` from the documents to a sequence of real scores. It stands for
`TfidfVectorizer` followed by `cosine_similarity`. Python floats are modelled
as `real`.

Two details of main.py shape the model:

- The corpus holds each book's *shortened* summary, because `book.summary` is
  the shortening property. The verbatim summary is not used.
- The zip is `zip(self.books, similarity_scores)`. When there are fewer scores
  than books, only the first `min(len(books), len(scores))` books are ranked.

## Model

| member | source | states |
|---|---|---|
| BookModel.Shorten | main.py:57-62 | A summary of at most 100 characters is returned unchanged. A longer one becomes exactly 103 characters: its first 100 characters followed by `"..."`. The result always agrees with the input on its first min(len, 100) characters and is never longer than 103. |
| BookModel.ShortenIdempotent | main.py:62 | Shortening an already shortened summary changes nothing. |
| BookModel.ShortenFixedPoints | main.py:62 | Shortening leaves a text unchanged exactly when it has at most 100 characters, or has 103 characters ending in `"..."`. |
| BookModel.ShortenKeepsPrefix | main.py:62 | Two summaries with the same shortened form are both long or both short. Short ones are then equal, and long ones share their first 100 characters. |
| Corpus.Summaries | main.py:126 | There is one document per book, in store order, and document i is book i's shortened summary. |
| Corpus.Documents | main.py:126-130 | With no books there is no corpus (`None`). Otherwise the corpus has len(books)+1 entries: entry i < len(books) is book i's shortened summary, and the last entry is the user input verbatim. |
| Corpus.DocumentsBounded | main.py:126 | Every document that comes from a book has at most 103 characters. |
| StableSort.Insert | main.py:118-119 | Inserting an entry that is earlier in the store than a ranked sequence keeps the sequence ranked. The result is a permutation of the sequence plus that entry. |
| StableSort.SortDesc | main.py:118-119 | Sorting the zipped pairs, comparing only scores, yields a permutation of them. In the result, scores never increase and equal scores are in store order. |
| StableSort.RankedUnique | main.py:118-119 | Two ranked sequences with the same members are equal, so the stable descending order is unique. |
| Recommender.Ranking | main.py:118-119 | The ranked store positions are every position exactly once. Scores never increase along them, and positions with equal scores are in increasing store order. |
| Recommender.RankingUnique | main.py:118-119 | Any order with those properties, however it was computed, equals `Ranking`. This is Python's stable `sorted(..., reverse=True)`. |
| Recommender.TopIndices | main.py:118-120 | The selected positions number min(5, len(scores)). They are distinct valid positions, in non-increasing score order, with ties in store order. A position left out scores no higher than any position taken, and on a tie it comes later in the store. |
| Recommender.PickDistinctFromStore | main.py:120 | Books taken at distinct store positions form a sub-multiset of the store, so no store entry is returned twice. |
| Recommender.RankBooks | main.py:117-120 | Exactly min(5, len(books), len(scores)) books are returned, each from a different place in the store. |
| Recommender.RankBooksIsStableSortPrefix | main.py:118-120 | For any stable descending order of the zipped pairs, the result is the books at its first five positions. |
| Recommender.AllTiedKeepsStoreOrder | main.py:118-119 | When every score ties, the first five books of the store come back in store order. |
| Recommender.GetRecommendations | main.py:109-120 | An empty store gives an empty list without any scoring. Otherwise the books are ranked by the scores of the corpus. The result never has more than 5 books or more than the store holds, and each comes from a different place in the store. |

## Left out

- Scraping (`scrape_book_data`, main.py:76-107) is left out: it is an HTTP request and BeautifulSoup HTML extraction. So are the parsing of ratings and review counts that goes with it. The store is an input sequence of `Book` values.
- TF-IDF vectorization and cosine similarity (main.py:131-134, 137-146) are left out: they are scikit-learn calls with floating-point logarithms, square roots and normalisation. Scores are the opaque `similarity` input.
- `_calculate_similarity` as written calls `.tolist()` on `Book` objects (main.py:144), which would fail at run time. The model assumes nothing about the scores, not even how many there are: the `zip` at main.py:119 truncates to the shorter of the book and score lists, and `RankBooks` ranks only that prefix.
- The `if not user_vector` test (main.py:114) is modelled as "the store is empty". For a non-empty store scikit-learn either returns a non-empty vector or raises an error on an empty vocabulary, and that exception is not modelled.
- Scores are `real`, not IEEE floats: rounding and NaN are not modelled. Cosine similarity of TF-IDF vectors is never NaN, and the ranking only compares scores.
- Book identity is modelled as store position. Python compares returned books by object identity; the model shows instead that the positions are distinct and that the returned books form a sub-multiset of the store.
- `print_recommendations`, `Book.__str__`, `run_recommendation_system` and `main` (main.py:64-65, 148-171, 194-212) are left out: they are console output and the interactive loop.
- The prose and markdown embedded in main.py (lines 7-38 and 173-191) is not code.

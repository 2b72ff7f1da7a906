# Tadka recipe recommender: the `recommend` endpoint in Dafny

Tadka serves recipe suggestions from a table of Indian dishes. Its one piece
of logic is the `recommend` endpoint in `main.py`. It lower-cases and strips
the query. If the result is one of four small-talk phrases, it returns a
canned `{"message": ...}` reply. Otherwise it scores every recipe by the
similarity between the query and the recipe's ingredient list. It then
returns the five best-scoring recipes, best first, as
`{"recommendations": [...]}`. Each recommendation shows six fields: `name`,
`ingredients`, `diet`, `course`, `state` and `recipe`. At load time the
ingredient column is lower-cased once.

The model has three modules:

- `Text` (text.dfy): Python's `str.lower()` (on ASCII letters) and
  `str.strip()` (the characters Python's `str.isspace` accepts). They are
  composed into `Normalize`, the query normal form.
- `Ranking` (ranking.dfy): what `similarity.argsort()[0][-5:][::-1]`
  selects. numpy's argsort is described only by its promise: a permutation
  of the row indices in ascending score order (`IsArgsort`). The default
  argsort is not stable, so equal scores may come out in any order.
  `IsTopK` states what a correct "best k, best first" answer is without
  fixing the order of ties. `TakeTopOfArgsort` proves that the last five
  entries of any argsort, reversed, form such an answer. `TopKScoresAgree`
  proves that two correct answers differ only in where rows with equal
  scores sit.
- `Recommender` (recommender.dfy): the catalog row, the small-talk table,
  the load-time lower-casing and `Recommend` itself. `Recommend` takes the
  scores and the argsort as parameters. `similarity` maps a normalised
  query to one score per row; it stands for the TF-IDF vectoriser and
  cosine similarity. `argsort` is any function that keeps numpy's promise.
  `ScoringFits` states these two library guarantees. `Ranking.ArgSort` is a
  stable insertion sort that meets the promise. It shows that the promise
  can be met (`ArgSortFits`). The model never assumes numpy breaks ties the same way.

Three behaviours that one might expect from a recipe search are absent from
`main.py`, and the model does not add them: a minimum query length, an
exact dish-name lookup and a minimum-similarity threshold. An empty cell in
the CSV is read by pandas as the float NaN and handed on unchanged to the
response; it is not replaced by a placeholder text. The model writes such a
`recipe` value as `None`.

## Model

| member | source | states |
|---|---|---|
| `Text.Lower` | main.py:29 | Same length; no upper-case letter remains; every `A`-`Z` becomes the same letter in lower case; every other character is unchanged |
| `Text.TrimStart` | main.py:29 | The result is a suffix of the input; everything dropped is whitespace; the result does not start with whitespace |
| `Text.TrimEnd` | main.py:29 | The result is a prefix of the input; everything dropped is whitespace; the result does not end with whitespace |
| `Text.Trim` | main.py:29 | `str.strip()`: the result has no whitespace at either end; with `TrimSplit` (input = whitespace + result + whitespace) and `TrimRemovesPadding` this fixes the result completely |
| `Text.TrimSplit` | main.py:29 | The input of `strip` is whitespace + result + whitespace: `strip` removes only surrounding whitespace and keeps the middle intact |
| `Text.TrimRemovesPadding` | main.py:29 | Padding a string that has no whitespace at either end, then stripping it, returns that string: `strip` removes all the padding and nothing more |
| `Text.Normalize` | main.py:29 | The normalised query has no leading or trailing whitespace and no upper-case letter, and is no longer than the raw query |
| `Text.NormalizeFixedPoints` | main.py:29 | Normalising leaves a string unchanged exactly when it has no surrounding whitespace and no upper-case letter (both directions) |
| `Text.NormalizeIdempotent` | main.py:29 | Normalising a normalised query changes nothing |
| `Text.NormalizeIgnoresPaddingAndCase` | main.py:29 | Adding surrounding whitespace or changing letter case never changes the normal form |
| `Ranking.TakeTop` | main.py:38 | `order[-k:][::-1]` for k >= 1 (the source uses k = 5): min(k, n) entries; `TakeTopOfArgsort` proves that on an argsort this is a correct top-k answer |
| `Ranking.ArgSort` | main.py:38 | One argsort that keeps numpy's promise exists: a permutation of the row indices with non-decreasing scores |
| `Ranking.ArgsortCovers` | main.py:38 | Every row index occurs in an argsort (it is a permutation, not just a distinct list) |
| `Ranking.LeftOutScoresLower` | main.py:38 | For k >= 1, a row left out of `order[-k:][::-1]` scores no higher than any row kept |
| `Ranking.TakeTopOfArgsort` | main.py:38 | For any argsort and k >= 1, `order[-k:][::-1]` has min(k, n) pairwise distinct indices in [0, n); scores do not increase along it; no row left out scores above a row kept |
| `Ranking.TopKScoresAgree` | main.py:38 | Two correct top-k answers have the same length and the same score at every position, so they differ only in which of the rows with equal scores sit at each position, including which tied rows make the cut |
| `Ranking.TopKUniqueWithoutTies` | main.py:38 | When all scores are distinct, there is exactly one correct top-k answer |
| `Recommender.LowerIngredients` | main.py:12 | After loading, the catalog has the same rows; every ingredient text has no upper-case letter and equals the original up to case; no other field changes |
| `Recommender.Views` | main.py:40 | One display record per ranked index, in index order; `ViewsShowRows` states that each holds exactly the row's six shown fields |
| `Recommender.ViewsShowRows` | main.py:40 | Each display record holds exactly the row's name, ingredients, diet, course, state and recipe, in the order of the ranked indices |
| `Recommender.ArgSortFits` | main.py:36-38 | With any similarity giving one score per row, the stable insertion sort meets the library guarantees `Recommend` requires |
| `Recommender.ScoringExists` | main.py:36-38 | For every catalog some scoring (all-zero scores with the insertion sort) meets `Recommend`'s requirement, so it can be called on every catalog |
| `Recommender.Recommend` | main.py:28-42 | The answer is a message exactly when the normalised query is a chat key, and the message is that key's reply; otherwise it is a recommendations list of length min(5, n) |
| `Recommender.RecommendRanks` | main.py:36-42 | A non-chat query yields the display records of a correct top-5 selection for its scores, in ranking order |
| `Recommender.RecommendUpToTies` | main.py:38 | Two argsorts that break ties differently give recommendation lists with the same score at every position |
| `Recommender.ChatIgnoresScores` | main.py:32-33 | On a chat hit the reply does not depend on the similarity scores or the argsort |
| `Recommender.ChatReplies` | main.py:19-24 | The four small-talk keys and their replies, verbatim; `ChatKeysReachable` proves every key is in normal form and `HiThereNotChat` that `"hi there"` is not one |
| `Recommender.ChatKeysReachable` | main.py:19-24 | Every key of the chat table is already in normal form, so typing it gets its reply |
| `Recommender.ChatIgnoresPaddingAndCase` | main.py:29-33 | A chat key typed in any letter case with any surrounding whitespace gets that key's reply |
| `Recommender.PaddedGreetingIsChat` | main.py:29-33 | `" Hi "` gets the reply to `hi` |
| `Recommender.ShoutedGreetingIsChat` | main.py:29-33 | `"HELLO"` gets the reply to `hello` |
| `Recommender.LongerGreetingIsRanked` | main.py:29-42 | `"hi there"` is not a chat key after normalisation and gets recommendations |
| `Recommender.HiThereNormal` | main.py:29 | `"hi there"` is already in normal form |
| `Recommender.HiThereNotChat` | main.py:19-24 | `"hi there"` is not a key of the chat table |
| `Recommender.RecommendedIngredientsLowerCase` | main.py:12 | Every recommendation taken from the loaded catalog shows its ingredients with no upper-case letter |

## Left out

- The FastAPI application, the route registration and the uvicorn launch (main.py lines 1, 6, 27 and 44-47) are transport and process setup.
- Reading `indian_food.csv` (main.py line 9) is file I/O. The catalog is a parameter of the model.
- The TF-IDF vectoriser and `cosine_similarity` (main.py lines 15-16 and 36-37) are library numerics in floating point. They are the `similarity` parameter. Its only constraint is one score per catalog row. Scores are reals used as ordered keys; NaN and rounding are not modelled.
- numpy's argsort (main.py line 38) is the `argsort` parameter, constrained only by its documented promise. The order it gives to equal scores is deliberately left open. A query that shares no word with any recipe scores 0 everywhere, and then any five rows are a correct answer.
- Text.Lower: models only the ASCII letters `A`-`Z`. Python's `str.lower()` also lower-cases other Unicode letters, and for a few it changes the length of the string.
- Empty CSV cells: pandas reads them as NaN, and `to_dict` (main.py line 40) passes NaN into the response. The model writes NaN as `None` in `recipe` and does not represent it at all in `diet`, `course` or `state`, which it treats as plain strings. A missing `ingredients` value would make the load-time `lower()` (main.py line 12) raise, which is not modelled either.
- The JSON encoder refuses NaN, so a query whose five recommendations include a row with an empty cell fails instead of answering. The model leaves out this encoding failure: `Recommend` always returns its `Recommendations` value.
- The JSON encoding of the response and the conversion of rows to dictionaries are represented by the `Response` and `RecordView` datatypes.
- `Recommend` requires the two library guarantees (`ScoringFits`) for every query, chat hits included. On a chat hit main.py never calls the libraries, but the vectoriser exists from load time on, so the requirement always holds.

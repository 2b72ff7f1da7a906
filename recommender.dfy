/** The `recommend` endpoint of main.py: normalise the query, answer small
    talk from a fixed table, otherwise rank every catalog row by similarity
    to the query and return the five best rows as display records.

    The similarity scores (a TF-IDF vectoriser fitted on the catalog's
    ingredient column, then cosine similarity) and numpy's argsort are
    parameters: `similarity` gives one score per catalog row for a normalised
    query, and `argsort` is any function that keeps numpy's promise. */
module Recommender {
  import opened Text
  import opened Ranking

  datatype Option<T> = None | Some(value: T)

  /** One row of the recipe table. `recipe` is `None` where the CSV cell is
      empty (pandas reads it as NaN); `otherColumns` stands for the columns the
      endpoint never shows. */
  datatype Row = Row(
    name: string,
    ingredients: string,
    diet: string,
    course: string,
    state: string,
    recipe: Option<string>,
    otherColumns: seq<string>)

  /** The six fields a recommendation shows (main.py line 40). */
  datatype RecordView = RecordView(
    name: string,
    ingredients: string,
    diet: string,
    course: string,
    state: string,
    recipe: Option<string>)

  /** The two JSON shapes the endpoint returns. */
  datatype Response =
    | Message(message: string)
    | Recommendations(recommendations: seq<RecordView>)

  /** The small-talk table (main.py lines 19-24). */
  const ChatReplies: map<string, string> := map[
    "hi" := "Hello! How can I help you today?",
    "hello" := "Hey there! Looking for a delicious recipe?",
    "how are you" := "I'm just a food AI, but I'm always ready to help!",
    "what's up" := "Not much! Just cooking up some great food ideas for you!"
  ]

  /** The load-time rewrite of the ingredient column to lower case (main.py line 12). */
  function LowerIngredients(rows: seq<Row>): (catalog: seq<Row>)
    ensures |catalog| == |rows|
    ensures forall i :: 0 <= i < |rows| ==>
      && HasNoUpper(catalog[i].ingredients)
      && Lower(catalog[i].ingredients) == Lower(rows[i].ingredients)
      && catalog[i] == rows[i].(ingredients := catalog[i].ingredients)
  {
    seq(|rows|, i requires 0 <= i < |rows| => rows[i].(ingredients := Lower(rows[i].ingredients)))
  }

  function View(row: Row): RecordView
  {
    RecordView(row.name, row.ingredients, row.diet, row.course, row.state, row.recipe)
  }

  /** `df.iloc[top][[...six columns...]].to_dict(orient="records")`: one
      record per index, in the order of the indices. */
  function Views(catalog: seq<Row>, top: seq<nat>): (recs: seq<RecordView>)
    requires forall i :: 0 <= i < |top| ==> top[i] < |catalog|
    ensures |recs| == |top|
  {
    seq(|top|, i requires 0 <= i < |top| => View(catalog[top[i]]))
  }

  /** Each view shows the six fields of the row it was taken from, in the
      order the indices give. */
  lemma ViewsShowRows(catalog: seq<Row>, top: seq<nat>)
    requires forall i :: 0 <= i < |top| ==> top[i] < |catalog|
    ensures var recs := Views(catalog, top);
      && |recs| == |top|
      && forall i :: 0 <= i < |top| ==>
        recs[i] == RecordView(catalog[top[i]].name, catalog[top[i]].ingredients, catalog[top[i]].diet,
                              catalog[top[i]].course, catalog[top[i]].state, catalog[top[i]].recipe)
  {
  }

  /** What the libraries behind line 36-38 guarantee: one score per catalog
      row for every query, and an argsort that sorts. */
  ghost predicate ScoringFits(catalog: seq<Row>, similarity: string -> seq<real>, argsort: seq<real> -> seq<nat>)
  {
    && (forall q :: |similarity(q)| == |catalog|)
    && (forall scores :: IsArgsort(scores, argsort(scores)))
  }

  /** main.py lines 28-42. A query whose normal form is a key of the chat
      table gets that key's reply; every other query gets min(5, n)
      recommendations. */
  function Recommend(
    catalog: seq<Row>,
    similarity: string -> seq<real>,
    argsort: seq<real> -> seq<nat>,
    query: string): (r: Response)
    requires ScoringFits(catalog, similarity, argsort)
    ensures r.Message? <==> Normalize(query) in ChatReplies
    ensures r.Message? ==> r.message == ChatReplies[Normalize(query)]
    ensures r.Recommendations? ==> |r.recommendations| == Min(TopK, |catalog|)
  {
    var q := Normalize(query);
    if q in ChatReplies then
      Message(ChatReplies[q])
    else
      var scores := similarity(q);
      var order := argsort(scores);
      var top := TakeTop(order, TopK);
      TakeTopOfArgsort(scores, order, TopK);
      Recommendations(Views(catalog, top))
  }

  /** A non-chat query is answered with the rows of a correct top-5
      selection for its scores, in ranking order, each projected to its six
      display fields. */
  lemma RecommendRanks(
    catalog: seq<Row>,
    similarity: string -> seq<real>,
    argsort: seq<real> -> seq<nat>,
    query: string) returns (top: seq<nat>)
    requires ScoringFits(catalog, similarity, argsort)
    requires Normalize(query) !in ChatReplies
    ensures IsTopK(similarity(Normalize(query)), TopK, top)
    ensures Recommend(catalog, similarity, argsort, query) == Recommendations(Views(catalog, top))
    ensures var recs := Recommend(catalog, similarity, argsort, query).recommendations;
      && |recs| == |top|
      && forall i :: 0 <= i < |top| ==>
        recs[i] == RecordView(catalog[top[i]].name, catalog[top[i]].ingredients, catalog[top[i]].diet,
                              catalog[top[i]].course, catalog[top[i]].state, catalog[top[i]].recipe)
  {
    var scores := similarity(Normalize(query));
    var order := argsort(scores);
    assert IsArgsort(scores, order);
    top := TakeTop(order, TopK);
    TakeTopOfArgsort(scores, order, TopK);
    assert Recommend(catalog, similarity, argsort, query) == Recommendations(Views(catalog, top));
    ViewsShowRows(catalog, top);
  }

  /** Whatever argsort breaks ties with, the recommendations carry the same
      scores in the same positions; only rows with equal scores can trade
      places. */
  lemma RecommendUpToTies(
    catalog: seq<Row>,
    similarity: string -> seq<real>,
    argsortA: seq<real> -> seq<nat>,
    argsortB: seq<real> -> seq<nat>,
    query: string) returns (topA: seq<nat>, topB: seq<nat>)
    requires ScoringFits(catalog, similarity, argsortA) && ScoringFits(catalog, similarity, argsortB)
    requires Normalize(query) !in ChatReplies
    ensures |topA| == |topB| == Min(TopK, |catalog|)
    ensures forall i :: 0 <= i < |topA| ==> topA[i] < |catalog| && topB[i] < |catalog|
    ensures Recommend(catalog, similarity, argsortA, query) == Recommendations(Views(catalog, topA))
    ensures Recommend(catalog, similarity, argsortB, query) == Recommendations(Views(catalog, topB))
    ensures var scores := similarity(Normalize(query));
      forall i :: 0 <= i < |topA| ==> scores[topA[i]] == scores[topB[i]]
  {
    topA := RecommendRanks(catalog, similarity, argsortA, query);
    topB := RecommendRanks(catalog, similarity, argsortB, query);
    TopKScoresAgree(similarity(Normalize(query)), TopK, topA, topB);
  }

  /** The stable insertion sort keeps numpy's promise, so with any
      similarity that gives one score per row the requirement of `Recommend`
      is met. */
  lemma ArgSortFits(catalog: seq<Row>, similarity: string -> seq<real>)
    requires forall q :: |similarity(q)| == |catalog|
    ensures ScoringFits(catalog, similarity, ArgSort)
  {
    forall scores ensures IsArgsort(scores, ArgSort(scores)) {
    }
  }

  /** Every catalog can be scored: all-zero scores and the insertion sort meet
      the requirement of `Recommend`. */
  lemma ScoringExists(catalog: seq<Row>)
    ensures ScoringFits(catalog, (q: string) => seq(|catalog|, i => 0.0), ArgSort)
  {
    ArgSortFits(catalog, (q: string) => seq(|catalog|, i => 0.0));
  }

  /** On a chat hit the scores are never consulted: any similarity and any
      argsort give the same reply. */
  lemma ChatIgnoresScores(
    catalog: seq<Row>,
    similarityA: string -> seq<real>, argsortA: seq<real> -> seq<nat>,
    similarityB: string -> seq<real>, argsortB: seq<real> -> seq<nat>,
    query: string)
    requires ScoringFits(catalog, similarityA, argsortA) && ScoringFits(catalog, similarityB, argsortB)
    requires Normalize(query) in ChatReplies
    ensures Recommend(catalog, similarityA, argsortA, query) == Recommend(catalog, similarityB, argsortB, query)
  {
  }

  /** Every key of the chat table is already in normal form, so typing it
      verbatim reaches its reply. */
  lemma ChatKeysReachable(query: string)
    requires query in ChatReplies
    ensures Normalize(query) == query
  {
    assert query == "hi" || query == "hello" || query == "how are you" || query == "what's up";
    assert HasNoUpper(query) by {
      forall i | 0 <= i < |query| ensures !IsUpper(query[i]) {
      }
    }
    assert IsTrimmed(query);
    NormalizeFixedPoints(query);
  }

  /** A chat key typed in any letter case and padded with any whitespace
      still gets that key's reply. */
  lemma ChatIgnoresPaddingAndCase(
    catalog: seq<Row>,
    similarity: string -> seq<real>,
    argsort: seq<real> -> seq<nat>,
    pre: string, typed: string, post: string)
    requires ScoringFits(catalog, similarity, argsort)
    requires AllSpace(pre) && AllSpace(post)
    requires Lower(typed) in ChatReplies
    ensures Recommend(catalog, similarity, argsort, pre + typed + post) == Message(ChatReplies[Lower(typed)])
  {
    var key := Lower(typed);
    LowerOfLower(key);
    NormalizeIgnoresPaddingAndCase(pre, key, post, typed);
    ChatKeysReachable(key);
  }

  /** Surrounding whitespace does not stop a greeting: " Hi " gets the reply to "hi". */
  lemma PaddedGreetingIsChat(catalog: seq<Row>, similarity: string -> seq<real>, argsort: seq<real> -> seq<nat>)
    requires ScoringFits(catalog, similarity, argsort)
    ensures Recommend(catalog, similarity, argsort, " Hi ") == Message("Hello! How can I help you today?")
  {
    var pad, typed := " ", "Hi";
    assert Lower(typed) == "hi" by {
      assert Lower(typed)[0] == 'h';
    }
    assert pad + typed + pad == " Hi ";
    ChatIgnoresPaddingAndCase(catalog, similarity, argsort, pad, typed, pad);
  }

  /** Letter case does not stop a greeting: "HELLO" gets the reply to "hello". */
  lemma ShoutedGreetingIsChat(catalog: seq<Row>, similarity: string -> seq<real>, argsort: seq<real> -> seq<nat>)
    requires ScoringFits(catalog, similarity, argsort)
    ensures Recommend(catalog, similarity, argsort, "HELLO") == Message("Hey there! Looking for a delicious recipe?")
  {
    var typed := "HELLO";
    assert Lower(typed) == "hello" by {
      forall i | 0 <= i < 5 ensures Lower(typed)[i] == "hello"[i] {
      }
    }
    assert [] + typed + [] == typed;
    ChatIgnoresPaddingAndCase(catalog, similarity, argsort, [], typed, []);
  }

  /** The chat check is exact equality: "hi there" is ranked like an ingredient list. */
  lemma LongerGreetingIsRanked(catalog: seq<Row>, similarity: string -> seq<real>, argsort: seq<real> -> seq<nat>)
    requires ScoringFits(catalog, similarity, argsort)
    ensures Recommend(catalog, similarity, argsort, "hi there").Recommendations?
  {
    HiThereNormal();
    HiThereNotChat();
  }

  lemma HiThereNormal()
    ensures Normalize("hi there") == "hi there"
  {
    var s := "hi there";
    assert HasNoUpper(s) && IsTrimmed(s) by {
      forall i | 0 <= i < 8 ensures !IsUpper(s[i]) {
      }
    }
    NormalizeFixedPoints(s);
  }

  lemma HiThereNotChat()
    ensures "hi there" !in ChatReplies
  {
    // No key of the table has the eight characters of "hi there".
    assert forall key :: key in ChatReplies ==> |key| != 8;
  }

  /** Every recommendation drawn from the loaded catalog shows its
      ingredients in lower case. */
  lemma RecommendedIngredientsLowerCase(
    rows: seq<Row>,
    similarity: string -> seq<real>,
    argsort: seq<real> -> seq<nat>,
    query: string)
    requires ScoringFits(LowerIngredients(rows), similarity, argsort)
    requires Normalize(query) !in ChatReplies
    ensures var recs := Recommend(LowerIngredients(rows), similarity, argsort, query).recommendations;
      forall i :: 0 <= i < |recs| ==> HasNoUpper(recs[i].ingredients)
  {
    var top := RecommendRanks(LowerIngredients(rows), similarity, argsort, query);
  }
}

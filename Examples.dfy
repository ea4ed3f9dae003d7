/** Illustrative cases worked through the model: a two-paper search, a time
    window, an unknown tag and an add followed by a remove. */
module Examples {
  import opened Wrappers
  import opened Text
  import opened Seqs
  import opened Search
  import opened Ranking
  import opened Pipeline
  import opened Tags
  import opened Labels

  // ---------------------------------------------------------------------
  // Search: "neural" over two papers

  const A := Paper("Neural Networks", ["Jane Doe"], "neural networks are great")
  const B := Paper("Cooking", ["John Smith"], "pasta recipes")

  lemma TokensOfNeural()
    ensures Tokens("neural") == ["neural"]
  {
    assert Lower("neural") == "neural";
    assert WordLength("neural") == 6;
    assert !IsSpace('n');
    assert "neural"[6..] == [] && "neural"[..6] == "neural";
    assert SplitWhitespace("neural") == ["neural"] + SplitWhitespace([]);
  }

  lemma AuthorsOfALower()
    ensures Lower(AuthorLine(A)) == "jane doe"
  {
    assert AuthorLine(A) == "Jane Doe";
  }

  lemma AuthorsOfA()
    ensures MatchUnique(AuthorLine(A), ["neural"]) == 0
  {
    AuthorsOfALower();
    CountWithoutChar("jane doe", "neural", 'u');
  }

  lemma TitleOfALower()
    ensures Lower(A.title) == "neural" + " networks"
  {
  }

  lemma TitleOfA()
    ensures MatchUnique(A.title, ["neural"]) == 1
  {
    TitleOfALower();
    CountLeadingWord("neural", " networks", 'u');
  }

  lemma SummaryOfAIsLower()
    ensures Lower(A.summary) == A.summary
  {
    LowerOfNoCapitals(A.summary);
  }

  lemma SummaryOfASplit()
    ensures A.summary == "neural" + " networks are great"
  {
  }

  lemma SummaryOfALower()
    ensures Lower(A.summary) == "neural" + " networks are great"
  {
    SummaryOfAIsLower();
    SummaryOfASplit();
  }

  lemma SummaryOfA()
    ensures MatchCapped(A.summary, ["neural"]) == 1
  {
    SummaryOfALower();
    CountLeadingWord("neural", " networks are great", 'u');
  }

  lemma ScoreOfA()
    ensures Score(["neural"], A) == 21
  {
    AuthorsOfA();
    TitleOfA();
    SummaryOfA();
  }

  lemma AuthorsOfBLower()
    ensures Lower(AuthorLine(B)) == "john smith"
  {
    assert AuthorLine(B) == "John Smith";
  }

  lemma AuthorsOfB()
    ensures MatchUnique(AuthorLine(B), ["neural"]) == 0
  {
    AuthorsOfBLower();
    CountWithoutChar("john smith", "neural", 'u');
  }

  lemma TitleOfB()
    ensures MatchUnique(B.title, ["neural"]) == 0
  {
    assert Lower(B.title) == "cooking";
    CountWithoutChar("cooking", "neural", 'u');
  }

  lemma SummaryOfBLower()
    ensures Lower(B.summary) == "pasta recipes"
  {
    LowerOfNoCapitals(B.summary);
  }

  lemma SummaryOfB()
    ensures MatchCapped(B.summary, ["neural"]) == 0
  {
    SummaryOfBLower();
    CountWithoutChar("pasta recipes", "neural", 'u');
  }

  lemma ScoreOfB()
    ensures Score(["neural"], B) == 0
  {
    AuthorsOfB();
    TitleOfB();
    SummaryOfB();
  }

  /** The scores of the two papers for the query "neural": 20 + 1 and 0. */
  lemma NeuralScores()
    ensures Score(Tokens("neural"), A) == 21 && Score(Tokens("neural"), B) == 0
  {
    TokensOfNeural();
    ScoreOfA();
    ScoreOfB();
  }

  /** Of a two-paper store, only the first scores. */
  lemma HitsOnlyFirst(papers: map<string, Paper>, qs: seq<string>, a: Paper, b: Paper)
    requires papers == map["A" := a, "B" := b]
    requires Score(qs, a) > 0 && Score(qs, b) == 0
    ensures "A" in papers && papers["A"] == a
    ensures forall pid :: pid in papers ==> (Score(qs, papers[pid]) > 0 <==> pid == "A")
  {
  }

  /** Searching a store of two papers of which only the first scores returns
      the first alone, with its score. */
  method SearchOfTwo(q: string, a: Paper, b: Paper) returns (pids: seq<string>, scores: seq<nat>)
    requires Score(Tokens(q), a) > 0 && Score(Tokens(q), b) == 0
    ensures pids == ["A"] && scores == [Score(Tokens(q), a)]
  {
    var papers := map["A" := a, "B" := b];
    pids, scores := SearchRank(q, papers);
    HitsOnlyFirst(papers, Tokens(q), a, b);
    SingleHit(Tokens(q), papers, "A", pids, scores);
  }

  /** Searching "neural" returns the first paper alone, with score 21. */
  method NeuralSearch() returns (pids: seq<string>, scores: seq<nat>)
    ensures pids == ["A"] && scores == [21]
  {
    NeuralScores();
    pids, scores := SearchOfTwo("neural", A, B);
  }

  // ---------------------------------------------------------------------
  // Time window: a paper two days old

  /** A two-day-old paper passes a 3-day window and fails a 1-day window. */
  lemma TwoDayOldPaper(now: real, score: int)
    ensures var metas := map["p" := Meta(now - 2.0 * SecondsPerDay)];
      && TimeFilter(["p"], [score], metas, now, 3) == Ok((["p"], [score]))
      && TimeFilter(["p"], [score], metas, now, 1) == Ok(([], []))
  {
    var metas := map["p" := Meta(now - 2.0 * SecondsPerDay)];
    var wide := TimeFilter(["p"], [score], metas, now, 3);
    assert TimeMask(["p"], metas, now, 3 * DaySeconds) == [true];
    assert FilterSeq([("p", score)], [true]) == [("p", score)];
    assert Zip(["p"], [score]) == [("p", score)];
    assert Zip(wide.value.0, wide.value.1)[0] == ("p", score);
    assert |wide.value.0| == 1 && wide.value.0[0] == "p" && wide.value.1[0] == score;
    assert wide.value.0 == ["p"] && wide.value.1 == [score];
    var narrow := TimeFilter(["p"], [score], metas, now, 1);
    assert TimeMask(["p"], metas, now, 1 * DaySeconds) == [false];
    assert FilterSeq([("p", score)], [false]) == [];
  }

  // ---------------------------------------------------------------------
  // Classifier labels: a tag the user does not have

  /** Ranking by a tag the library does not hold finds no positive label and
      ends with the empty result. */
  method UnknownTagHasNoSignal(featurePids: seq<string>, library: map<string, set<string>>)
    returns (r: Labelling)
    requires "nonexistent" !in library
    ensures r == NoSignal
  {
    assert ',' !in "nonexistent";
    assert SplitOn("nonexistent", ',') == ["nonexistent"];
    assert SelectedTags("nonexistent", library) == {"nonexistent"};
    assert TaggedPapers({"nonexistent"}, library) == {};
    r := BuildLabels("nonexistent", "", featurePids, library);
  }

  // ---------------------------------------------------------------------
  // Tags: add then remove on a fresh store

  /** Adding a paper to a new tag and removing it again leaves the user with
      an empty library; protected names are refused. */
  method AddThenSubPrunes() returns (library: Library, refused: AddReply)
    ensures library == map[]
    ensures refused == ProtectedAll
  {
    var db := new TagsDb();
    var added := db.Add(Some("u"), "p", "t");
    var removed := db.Sub(Some("u"), "p", "t");
    library := db.libraries["u"];
    refused := db.Add(Some("u"), "p", "all");
  }
}

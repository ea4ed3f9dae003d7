/** Keyword search (`search_rank`): every paper is scored by counting the
    query tokens in its author names, title and summary; papers with a
    positive score are returned as `(score, pid)` pairs sorted in reverse. */
module Search {
  import opened Text
  import opened Seqs
  import opened Numbers

  /** The fields of a paper record that search reads. `authors` holds the
      `name` of each author entry. */
  datatype Paper = Paper(title: string, authors: seq<string>, summary: string)

  /** `q.lower().strip().split()`: the whitespace-separated words of the
      lower-cased query, which the strip does not change. */
  function Tokens(q: string): (qs: seq<string>)
    ensures forall k :: 0 <= k < |qs| ==> IsWord(qs[k])
    ensures qs == SplitWhitespace(Lower(q))
  {
    SplitOfStrip(Lower(q));
    SplitWhitespace(Strip(Lower(q)))
  }

  /** The author names joined by single spaces: every name appears in it. */
  function AuthorLine(p: Paper): (r: string)
    ensures forall k :: 0 <= k < |p.authors| ==> Occurs(r, p.authors[k])
  {
    JoinWithContains(p.authors, " ");
    JoinWith(p.authors, " ")
  }

  /** `matchu(s)`: how many query tokens (a repeated token once per
      repetition) occur at least once in `s.lower()`. */
  function MatchUnique(s: string, qs: seq<string>): (n: nat)
    ensures n <= |qs|
  {
    if |qs| == 0 then 0
    else (if Count(Lower(s), qs[0]) > 0 then 1 else 0) + MatchUnique(s, qs[1..])
  }

  /** `match(s)`: the occurrence counts of the tokens in `s.lower()`, each capped at 3. */
  function MatchCapped(s: string, qs: seq<string>): (n: nat)
    ensures n <= 3 * |qs|
  {
    if |qs| == 0 then 0
    else Min(3, Count(Lower(s), qs[0])) + MatchCapped(s, qs[1..])
  }

  /** The score of one paper for the token list `qs`. */
  function Score(qs: seq<string>, p: Paper): (r: nat)
    ensures r <= 33 * |qs|
  {
    10 * MatchUnique(AuthorLine(p), qs) + 20 * MatchUnique(p.title, qs) + MatchCapped(p.summary, qs)
  }

  /** What a single token is worth: 10 for the authors, 20 for the title and
      up to 3 for the summary. */
  function TokenScore(t: string, p: Paper): (r: nat)
    ensures r <= 33
  {
    (if Count(Lower(AuthorLine(p)), t) > 0 then 10 else 0)
    + (if Count(Lower(p.title), t) > 0 then 20 else 0)
    + Min(3, Count(Lower(p.summary), t))
  }

  function SumTokenScores(qs: seq<string>, p: Paper): nat {
    if |qs| == 0 then 0 else TokenScore(qs[0], p) + SumTokenScores(qs[1..], p)
  }

  /** The score is the sum over the token list of what each token is worth. */
  lemma {:induction false} ScoreIsSumOfTokenScores(qs: seq<string>, p: Paper)
    ensures Score(qs, p) == SumTokenScores(qs, p)
  {
    if |qs| > 0 {
      ScoreIsSumOfTokenScores(qs[1..], p);
    }
  }

  /** A token is worth something exactly when it occurs, case-insensitively,
      in the author names, the title or the summary. */
  lemma TokenScorePositiveIff(t: string, p: Paper)
    requires |t| > 0
    ensures TokenScore(t, p) > 0 <==>
      Occurs(Lower(AuthorLine(p)), t) || Occurs(Lower(p.title), t) || Occurs(Lower(p.summary), t)
  {
    CountPositiveIffOccurs(Lower(AuthorLine(p)), t);
    CountPositiveIffOccurs(Lower(p.title), t);
    CountPositiveIffOccurs(Lower(p.summary), t);
  }

  /** A paper is a search hit exactly when one of the tokens is worth something. */
  lemma {:induction false} ScorePositiveIff(qs: seq<string>, p: Paper)
    ensures Score(qs, p) > 0 <==> exists k :: 0 <= k < |qs| && TokenScore(qs[k], p) > 0
  {
    ScoreIsSumOfTokenScores(qs, p);
    SumPositiveIff(qs, p);
  }

  lemma {:induction false} SumPositiveIff(qs: seq<string>, p: Paper)
    ensures SumTokenScores(qs, p) > 0 <==> exists k :: 0 <= k < |qs| && TokenScore(qs[k], p) > 0
  {
    if |qs| > 0 {
      SumPositiveIff(qs[1..], p);
      if exists k :: 0 <= k < |qs[1..]| && TokenScore(qs[1..][k], p) > 0 {
        var k :| 0 <= k < |qs[1..]| && TokenScore(qs[1..][k], p) > 0;
        assert TokenScore(qs[k + 1], p) > 0;
      }
      if exists k :: 0 <= k < |qs| && TokenScore(qs[k], p) > 0 {
        var k :| 0 <= k < |qs| && TokenScore(qs[k], p) > 0;
        if k > 0 { assert TokenScore(qs[1..][k - 1], p) > 0; }
      }
    }
  }

  /** A query that is empty or all whitespace has no tokens and scores nothing. */
  lemma NoTokensNoScore(q: string, p: Paper)
    requires forall k :: 0 <= k < |q| ==> IsSpace(q[k])
    ensures Tokens(q) == [] && Score(Tokens(q), p) == 0
  {
    SplitOfSpaces(Lower(q));
  }

  // ---------------------------------------------------------------------
  // Ordering of the (score, pid) pairs

  type Pair = (nat, string)

  /** `a` comes before `b` after `pairs.sort(reverse=True)`: Python compares
      the score first and then the pid as a string. */
  predicate Above(a: Pair, b: Pair): (r: bool)
    ensures r ==> a != b && a.0 >= b.0
  {
    a.0 > b.0 || (a.0 == b.0 && StrLess(b.1, a.1))
  }

  predicate StrictlyDescending(s: seq<Pair>) {
    forall i, j :: 0 <= i < j < |s| ==> Above(s[i], s[j])
  }

  lemma AboveTransitive(a: Pair, b: Pair, c: Pair)
    requires Above(a, b) && Above(b, c)
    ensures Above(a, c)
  {
    if a.0 == b.0 && b.0 == c.0 {
      StrLessTransitive(c.1, b.1, a.1);
    }
  }

  lemma AboveTotal(a: Pair, b: Pair)
    requires a != b
    ensures Above(a, b) || Above(b, a)
  {
    if a.0 == b.0 {
      StrLessTotal(a.1, b.1);
    }
  }

  lemma AboveIrreflexive(a: Pair)
    ensures !Above(a, a)
  {
    StrLessIrreflexive(a.1);
  }

  /** Insert `x` into a list already in reverse-sorted order. */
  function Insert(x: Pair, s: seq<Pair>): (r: seq<Pair>)
    requires StrictlyDescending(s) && x !in s
    ensures multiset(r) == multiset(s) + multiset{x}
    ensures StrictlyDescending(r)
  {
    if |s| == 0 then [x]
    else if Above(x, s[0]) then
      AboveAllAfterHead(x, s);
      [x] + s
    else
      AboveTotal(x, s[0]);
      var rest := Insert(x, s[1..]);
      assert s == [s[0]] + s[1..];
      HeadAboveInsert(s, x, rest);
      [s[0]] + rest
  }

  lemma AboveAllAfterHead(x: Pair, s: seq<Pair>)
    requires |s| > 0 && StrictlyDescending(s) && Above(x, s[0])
    ensures StrictlyDescending([x] + s)
  {
    var r := [x] + s;
    forall i, j | 0 <= i < j < |r| ensures Above(r[i], r[j]) {
      if i == 0 && j > 1 { AboveTransitive(x, s[0], s[j - 1]); }
    }
  }

  lemma HeadAboveInsert(s: seq<Pair>, x: Pair, rest: seq<Pair>)
    requires |s| > 0 && StrictlyDescending(s) && Above(s[0], x)
    requires multiset(rest) == multiset(s[1..]) + multiset{x} && StrictlyDescending(rest)
    ensures StrictlyDescending([s[0]] + rest)
  {
    var r := [s[0]] + rest;
    forall i, j | 0 <= i < j < |r| ensures Above(r[i], r[j]) {
      if i == 0 {
        var e := rest[j - 1];
        assert e in multiset(rest);
        if e != x {
          assert e in multiset(s[1..]);
          var k :| 0 <= k < |s[1..]| && s[1..][k] == e;
          assert s[k + 1] == e;
        }
      }
    }
  }

  /** The list `pairs` after `pairs.sort(reverse=True)`. */
  function SortPairs(s: seq<Pair>): (r: seq<Pair>)
    requires Distinct(s)
    ensures multiset(r) == multiset(s)
    ensures StrictlyDescending(r)
  {
    if |s| == 0 then []
    else
      assert Distinct(s[1..]);
      var rest := SortPairs(s[1..]);
      assert s == [s[0]] + s[1..];
      assert s[0] !in multiset(s[1..]);
      Insert(s[0], rest)
  }

  /** No pid occurs in two pairs. */
  predicate DistinctPids(pairs: seq<Pair>) {
    forall k, l :: 0 <= k < l < |pairs| ==> pairs[k].1 != pairs[l].1
  }

  /** `pairs` holds exactly the papers with a positive score, each once with
      its score. */
  ghost predicate IsHitList(pairs: seq<Pair>, qs: seq<string>, papers: map<string, Paper>) {
    && DistinctPids(pairs)
    && (forall k :: 0 <= k < |pairs| ==>
          pairs[k].1 in papers && pairs[k].0 == Score(qs, papers[pairs[k].1]) && pairs[k].0 > 0)
    && (forall pid :: pid in papers && Score(qs, papers[pid]) > 0 ==> (Score(qs, papers[pid]), pid) in pairs)
  }

  lemma DistinctPidsDistinct(pairs: seq<Pair>)
    requires DistinctPids(pairs)
    ensures Distinct(pairs)
  {
  }

  /** The loop of `search_rank` that scores every paper and keeps the hits. */
  method CollectHits(qs: seq<string>, papers: map<string, Paper>) returns (pairs: seq<Pair>)
    ensures IsHitList(pairs, qs, papers)
  {
    pairs := [];
    var remaining := papers.Keys;
    while remaining != {}
      invariant remaining <= papers.Keys
      invariant DistinctPids(pairs)
      invariant forall k :: 0 <= k < |pairs| ==>
        pairs[k].1 in papers && pairs[k].1 !in remaining
        && pairs[k].0 == Score(qs, papers[pairs[k].1]) && pairs[k].0 > 0
      invariant forall pid :: pid in papers && pid !in remaining && Score(qs, papers[pid]) > 0 ==>
        (Score(qs, papers[pid]), pid) in pairs
    {
      var pid :| pid in remaining;
      var p := papers[pid];
      var score := 0;
      score := score + 10 * MatchUnique(AuthorLine(p), qs);
      score := score + 20 * MatchUnique(p.title, qs);
      score := score + MatchCapped(p.summary, qs);
      assert score == Score(qs, p);
      if score > 0 {
        pairs := pairs + [(score, pid)];
      }
      remaining := remaining - {pid};
    }
  }

  /** `[p[1] for p in pairs]` and `[p[0] for p in pairs]`. */
  function Unzip(pairs: seq<Pair>): (r: (seq<string>, seq<nat>))
    ensures |r.0| == |r.1| == |pairs|
    ensures forall k :: 0 <= k < |pairs| ==> pairs[k] == (r.1[k], r.0[k])
  {
    (seq(|pairs|, k requires 0 <= k < |pairs| => pairs[k].1),
     seq(|pairs|, k requires 0 <= k < |pairs| => pairs[k].0))
  }

  /** When exactly one paper of the store scores, the search returns it alone. */
  lemma SingleHit(qs: seq<string>, papers: map<string, Paper>, a: string, pids: seq<string>, scores: seq<nat>)
    requires a in papers
    requires forall pid :: pid in papers ==> (Score(qs, papers[pid]) > 0 <==> pid == a)
    requires |pids| == |scores|
    requires forall i :: 0 <= i < |pids| ==>
      pids[i] in papers && scores[i] == Score(qs, papers[pids[i]]) && scores[i] > 0
    requires forall pid :: pid in papers && Score(qs, papers[pid]) > 0 ==> pid in pids
    requires forall i, j :: 0 <= i < j < |pids| ==> Above((scores[i], pids[i]), (scores[j], pids[j]))
    ensures pids == [a] && scores == [Score(qs, papers[a])]
  {
    if |pids| > 1 {
      assert pids[0] == a && pids[1] == a;
      AboveIrreflexive((scores[0], pids[0]));
    }
  }

  /** A rearranged hit list is still a hit list, in the sense of its two halves. */
  lemma PermutedHits(qs: seq<string>, papers: map<string, Paper>, pairs: seq<Pair>, sorted: seq<Pair>)
    requires IsHitList(pairs, qs, papers) && multiset(sorted) == multiset(pairs)
    ensures forall k :: 0 <= k < |sorted| ==>
      sorted[k].1 in papers && sorted[k].0 == Score(qs, papers[sorted[k].1]) && sorted[k].0 > 0
    ensures forall pid :: pid in papers && Score(qs, papers[pid]) > 0 ==> (Score(qs, papers[pid]), pid) in sorted
  {
    forall k | 0 <= k < |sorted|
      ensures sorted[k].1 in papers && sorted[k].0 == Score(qs, papers[sorted[k].1]) && sorted[k].0 > 0
    {
      assert sorted[k] in multiset(pairs);
    }
    forall pid | pid in papers && Score(qs, papers[pid]) > 0 ensures (Score(qs, papers[pid]), pid) in sorted {
      assert (Score(qs, papers[pid]), pid) in multiset(sorted);
    }
  }

  /** The sorted hit list, unzipped, has the properties `search_rank` promises. */
  lemma SortedHits(qs: seq<string>, papers: map<string, Paper>, pairs: seq<Pair>)
    requires IsHitList(pairs, qs, papers) && Distinct(pairs)
    ensures var r := Unzip(SortPairs(pairs));
      && (forall i :: 0 <= i < |r.0| ==>
            r.0[i] in papers && r.1[i] == Score(qs, papers[r.0[i]]) && r.1[i] > 0)
      && (forall pid :: pid in papers && Score(qs, papers[pid]) > 0 ==> pid in r.0)
      && (forall i, j :: 0 <= i < j < |r.0| ==> Above((r.1[i], r.0[i]), (r.1[j], r.0[j])))
  {
    var sorted := SortPairs(pairs);
    var r := Unzip(sorted);
    PermutedHits(qs, papers, pairs, sorted);
    forall pid | pid in papers && Score(qs, papers[pid]) > 0 ensures pid in r.0 {
      var k :| 0 <= k < |sorted| && sorted[k] == (Score(qs, papers[pid]), pid);
      assert r.0[k] == pid;
    }
  }

  /** `search_rank(q)` over the paper store `papers`. The store is visited in
      an arbitrary order, which the sort makes irrelevant. */
  method SearchRank(q: string, papers: map<string, Paper>) returns (pids: seq<string>, scores: seq<nat>)
    ensures q == [] ==> pids == [] && scores == []
    ensures |pids| == |scores|
    ensures forall i :: 0 <= i < |pids| ==>
      pids[i] in papers && scores[i] == Score(Tokens(q), papers[pids[i]]) && scores[i] > 0
    ensures forall pid :: pid in papers && Score(Tokens(q), papers[pid]) > 0 ==> pid in pids
    ensures forall i, j :: 0 <= i < j < |pids| ==> Above((scores[i], pids[i]), (scores[j], pids[j]))
  {
    if q == [] {
      return [], [];
    }
    var qs := Tokens(q);
    var pairs := CollectHits(qs, papers);
    DistinctPidsDistinct(pairs);
    SortedHits(qs, papers, pairs);
    var sorted := Unzip(SortPairs(pairs));
    pids, scores := sorted.0, sorted.1;
  }
}

/** The result pipeline of the index page: the optional time window, the
    optional "skip papers I already tagged" filter and pagination, all on
    the parallel `pids` / `scores` lists produced by a ranking. */
module Pipeline {
  import opened Wrappers
  import opened Seqs
  import opened Text
  import opened Ranking
  import opened Numbers

  /** `RET_NUM`: papers per page. */
  const RetNum: nat := 25

  /** `60*60*24`. */
  const DaySeconds: int := 86400

  datatype PipelineError =
    | BadTimeFilter(text: string)  // `int(opt_time_filter)` raises ValueError
    | MissingMeta(pid: string)     // `kv[pid]` raises KeyError

  /** `a` is `b` with some elements left out, the rest in their order. */
  predicate IsSubseq<T(==)>(a: seq<T>, b: seq<T>)
    decreases |b|
  {
    if |a| == 0 then true
    else if |b| == 0 then false
    else (a[0] == b[0] && IsSubseq(a[1..], b[1..])) || IsSubseq(a, b[1..])
  }

  lemma {:induction false} SubseqTransitive<T>(a: seq<T>, b: seq<T>, c: seq<T>)
    requires IsSubseq(a, b) && IsSubseq(b, c)
    ensures IsSubseq(a, c)
    decreases |c|
  {
    if |a| > 0 {
      if IsSubseq(b, c[1..]) {
        SubseqTransitive(a, b, c[1..]);
      } else if a[0] == b[0] && IsSubseq(a[1..], b[1..]) {
        SubseqTransitive(a[1..], b[1..], c[1..]);
      } else {
        SubseqTransitive(a, b[1..], c[1..]);
      }
    }
  }

  lemma {:induction false} SubseqReflexive<T>(a: seq<T>)
    ensures IsSubseq(a, a)
  {
    if |a| > 0 { SubseqReflexive(a[1..]); }
  }

  lemma {:induction false} FilterIsSubseq<T>(s: seq<T>, mask: seq<bool>)
    requires |s| == |mask|
    ensures IsSubseq(FilterSeq(s, mask), s)
  {
    if |s| > 0 {
      FilterIsSubseq(s[1..], mask[1..]);
      if mask[0] {
        assert FilterSeq(s, mask)[1..] == FilterSeq(s[1..], mask[1..]);
      } else {
        assert FilterSeq(s, mask) == FilterSeq(s[1..], mask[1..]);
      }
    }
  }

  lemma {:induction false} SliceIsSubseq<T>(s: seq<T>, i: nat, j: nat)
    requires i <= j <= |s|
    ensures IsSubseq(s[i..j], s)
    decreases |s|
  {
    if i < j {
      if i == 0 {
        assert s[i..j][1..] == s[1..][0..j - 1];
        SliceIsSubseq(s[1..], 0, j - 1);
      } else {
        var a := s[i..j];
        assert a == s[1..][i - 1..j - 1] by {
          forall k | 0 <= k < j - i ensures a[k] == s[1..][i - 1..j - 1][k] {
            assert a[k] == s[i + k];
          }
        }
        SliceIsSubseq(s[1..], i - 1, j - 1);
        assert |a| > 0 && |s| > 0;
      }
    }
  }

  /** `keep = [i for i, pid in enumerate(pids) if mask[i]]` followed by
      `[pids[i] for i in keep], [scores[i] for i in keep]`. */
  function Keep<S>(pids: seq<string>, scores: seq<S>, mask: seq<bool>): (r: (seq<string>, seq<S>))
    requires |pids| == |scores| == |mask|
    ensures |r.0| == |r.1|
    ensures Zip(r.0, r.1) == FilterSeq(Zip(pids, scores), mask)
  {
    var keep := KeepFrom(mask, 0);
    SelectKeepIsFilter(Zip(pids, scores), mask, 0);
    SelectZip(pids, scores, keep);
    assert Zip(pids, scores)[0..] == Zip(pids, scores) && mask[0..] == mask;
    (Select(pids, keep), Select(scores, keep))
  }

  /** Position of the first pid that has no metadata record. */
  function FirstMissing(pids: seq<string>, metas: map<string, Meta>): (r: Option<nat>)
    ensures r.None? <==> AllIn(pids, metas)
    ensures r.Some? ==> r.value < |pids| && pids[r.value] !in metas
    ensures r.Some? ==> forall k :: 0 <= k < r.value ==> pids[k] in metas
  {
    if |pids| == 0 then None
    else if pids[0] !in metas then Some(0)
    else match FirstMissing(pids[1..], metas)
      case None => None
      case Some(k) => Some(k + 1)
  }

  /** Whether each paper is younger than `delta` seconds at time `now`. */
  function TimeMask(pids: seq<string>, metas: map<string, Meta>, now: real, delta: int): (m: seq<bool>)
    requires AllIn(pids, metas)
    ensures |m| == |pids|
    ensures forall i :: 0 <= i < |pids| ==> (m[i] <==> now - metas[pids[i]].time < delta as real)
  {
    seq(|pids|, i requires 0 <= i < |pids| => now - metas[pids[i]].time < delta as real)
  }

  /** The time-window filter for a window of `days` days. */
  function TimeFilter<S>(pids: seq<string>, scores: seq<S>, metas: map<string, Meta>, now: real, days: int)
    : (r: Result<(seq<string>, seq<S>), PipelineError>)
    requires |pids| == |scores|
    ensures r.Err? <==> !AllIn(pids, metas)
    ensures r.Err? ==> r.error.MissingMeta? && r.error.pid in pids && r.error.pid !in metas
    ensures r.Ok? ==>
      && |r.value.0| == |r.value.1|
      && Zip(r.value.0, r.value.1) == FilterSeq(Zip(pids, scores), TimeMask(pids, metas, now, days * DaySeconds))
  {
    match FirstMissing(pids, metas)
    case Some(i) => Err(MissingMeta(pids[i]))
    case None => Ok(Keep(pids, scores, TimeMask(pids, metas, now, days * DaySeconds)))
  }

  /** `set().union(*tags.values())`: every pid the user has tagged. */
  function Owned(library: map<string, set<string>>): (r: set<string>)
    ensures forall p :: p in r <==> exists t :: t in library && p in library[t]
  {
    set t, p | t in library && p in library[t] :: p
  }

  function NotOwnedMask(pids: seq<string>, have: set<string>): (m: seq<bool>)
    ensures |m| == |pids|
    ensures forall i :: 0 <= i < |pids| ==> (m[i] <==> pids[i] !in have)
  {
    seq(|pids|, i requires 0 <= i < |pids| => pids[i] !in have)
  }

  /** The filter that hides papers already in one of the user's tags. */
  function SkipOwned<S>(pids: seq<string>, scores: seq<S>, library: map<string, set<string>>)
    : (r: (seq<string>, seq<S>))
    requires |pids| == |scores|
    ensures |r.0| == |r.1|
    ensures Zip(r.0, r.1) == FilterSeq(Zip(pids, scores), NotOwnedMask(pids, Owned(library)))
  {
    Keep(pids, scores, NotOwnedMask(pids, Owned(library)))
  }

  /** `max(1, int(opt_page_number))`, or 1 when the text is not an integer. */
  function PageNumber(text: string): (page: int)
    ensures page >= 1
    ensures ParseInt(text).None? ==> page == 1
    ensures ParseInt(text).Some? && ParseInt(text).value >= 1 ==> page == ParseInt(text).value
    ensures ParseInt(text).Some? && ParseInt(text).value < 1 ==> page == 1
  {
    match ParseInt(text)
    case None => 1
    case Some(n) => if n < 1 then 1 else n
  }

  /** The page number reported back (`str(page_number)`) selects the same page. */
  lemma PageNumberRoundTrip(text: string)
    ensures PageNumber(IntToString(PageNumber(text))) == PageNumber(text)
  {
    ParseIntOfString(PageNumber(text));
  }

  /** Python's `s[start:end]` for `0 <= start`, `0 <= end`: the entries at the
      positions from `start` up to but excluding `end` that exist. */
  function PySlice<T>(s: seq<T>, start: nat, end: nat): (r: seq<T>)
    ensures |r| == if start < end && start < |s| then Min(end, |s|) - start else 0
    ensures forall k :: 0 <= k < |r| ==> r[k] == s[start + k]
  {
    var lo := Min(start, |s|);
    var hi := Min(end, |s|);
    if lo >= hi then [] else s[lo..hi]
  }

  /** Page `page` of the results: at most `RetNum` consecutive entries starting
      at `(page - 1) * RetNum`, still paired, and none past the end. */
  function Paginate<S>(pids: seq<string>, scores: seq<S>, page: int): (r: (seq<string>, seq<S>))
    requires |pids| == |scores| && page >= 1
    ensures |r.0| == |r.1| <= RetNum
    ensures var start := (page - 1) * RetNum;
      && (start >= |pids| ==> |r.0| == 0)
      && (start < |pids| ==> |r.0| == Min(RetNum, |pids| - start))
      && forall k :: 0 <= k < |r.0| ==> r.0[k] == pids[start + k] && r.1[k] == scores[start + k]
  {
    var start := (page - 1) * RetNum;
    var end := Min(start + RetNum, |pids|);
    (PySlice(pids, start, end), PySlice(scores, start, end))
  }

  /** Pagination cuts a contiguous run out of the paired list. */
  lemma PaginateIsSlice<S>(pids: seq<string>, scores: seq<S>, page: int)
    requires |pids| == |scores| && page >= 1
    ensures var r := Paginate(pids, scores, page);
      IsSubseq(Zip(r.0, r.1), Zip(pids, scores))
  {
    var r := Paginate(pids, scores, page);
    var start := (page - 1) * RetNum;
    var z := Zip(pids, scores);
    if start < |pids| {
      var end := Min(start + RetNum, |pids|);
      assert Zip(r.0, r.1) == z[start..end];
      SliceIsSubseq(z, start, end);
    } else {
      assert Zip(r.0, r.1) == [];
    }
  }

  /** Every element of a subsequence is an element of the whole. */
  lemma {:induction false} SubseqMembers<T>(a: seq<T>, b: seq<T>, x: T)
    requires IsSubseq(a, b) && x in a
    ensures x in b
    decreases |b|
  {
    if a[0] == b[0] && IsSubseq(a[1..], b[1..]) {
      if x != a[0] {
        assert x in a[1..];
        SubseqMembers(a[1..], b[1..], x);
      }
    } else {
      SubseqMembers(a, b[1..], x);
    }
  }

  /** A pid kept from a paired list was a pid of the list. */
  lemma PidsOfSubseq<S>(a0: seq<string>, a1: seq<S>, b0: seq<string>, b1: seq<S>)
    requires |a0| == |a1| && |b0| == |b1|
    requires IsSubseq(Zip(a0, a1), Zip(b0, b1))
    ensures forall x :: x in a0 ==> x in b0
  {
    forall x | x in a0 ensures x in b0 {
      var k :| 0 <= k < |a0| && a0[k] == x;
      var za, zb := Zip(a0, a1), Zip(b0, b1);
      assert za[k] in za;
      SubseqMembers(za, zb, za[k]);
      var j :| 0 <= j < |zb| && zb[j] == za[k];
      assert b0[j] == x;
    }
  }

  /** A pid kept by a filter stands at a position the mask keeps. */
  lemma FilterPids<S>(pids: seq<string>, scores: seq<S>, mask: seq<bool>, out0: seq<string>, out1: seq<S>)
    requires |pids| == |scores| == |mask| && |out0| == |out1|
    requires Zip(out0, out1) == FilterSeq(Zip(pids, scores), mask)
    ensures forall x :: x in out0 ==> exists i :: 0 <= i < |pids| && mask[i] && pids[i] == x
  {
    forall x | x in out0 ensures exists i :: 0 <= i < |pids| && mask[i] && pids[i] == x {
      var k :| 0 <= k < |out0| && out0[k] == x;
      var zin := Zip(pids, scores);
      var e := Zip(out0, out1)[k];
      FilterMembership(zin, mask, e);
      var i :| 0 <= i < |zin| && mask[i] && zin[i] == e;
      assert pids[i] == x;
    }
  }

  /** The paper is in the store and younger than `delta` seconds at `now`. */
  predicate Young(p: string, metas: map<string, Meta>, now: real, delta: int) {
    p in metas && now - metas[p].time < delta as real
  }

  /** The window condition: no window is given, or the paper is younger than it. */
  predicate InWindow(p: string, metas: map<string, Meta>, now: real, timeFilter: string) {
    timeFilter == "" || (ParseInt(timeFilter).Some? && Young(p, metas, now, ParseInt(timeFilter).value * DaySeconds))
  }

  /** The ownership condition: owned papers are not skipped, or the paper is not owned. */
  predicate Shown(p: string, skipHave: string, library: map<string, set<string>>) {
    skipHave != "yes" || p !in Owned(library)
  }

  /** `InWindow` on the pid of a pair. */
  function WindowTest<S>(metas: map<string, Meta>, now: real, timeFilter: string): ((string, S)) -> bool {
    (x: (string, S)) => InWindow(x.0, metas, now, timeFilter)
  }

  /** `Shown` on the pid of a pair. */
  function ShownTest<S>(skipHave: string, library: map<string, set<string>>): ((string, S)) -> bool {
    (x: (string, S)) => Shown(x.0, skipHave, library)
  }

  /** Which results survive both filters of the index page. */
  function PassMask(pids: seq<string>, metas: map<string, Meta>, now: real, timeFilter: string,
                    skipHave: string, library: map<string, set<string>>): (m: seq<bool>)
    ensures |m| == |pids|
    ensures forall i :: 0 <= i < |pids| ==>
      (m[i] <==> InWindow(pids[i], metas, now, timeFilter) && Shown(pids[i], skipHave, library))
  {
    seq(|pids|, i requires 0 <= i < |pids| =>
      InWindow(pids[i], metas, now, timeFilter) && Shown(pids[i], skipHave, library))
  }

  /** Reference definition of the page shown: the pairs that pass both
      filters, then the slice of page `page`. */
  function FilteredPage<S>(pids: seq<string>, scores: seq<S>, metas: map<string, Meta>, now: real,
                           timeFilter: string, skipHave: string, library: map<string, set<string>>,
                           page: int): seq<(string, S)>
    requires |pids| == |scores| && page >= 1
  {
    var f := FilterSeq(Zip(pids, scores), PassMask(pids, metas, now, timeFilter, skipHave, library));
    var start := (page - 1) * RetNum;
    PySlice(f, start, Min(start + RetNum, |f|))
  }

  /** Lines 293-317 of the index page: time window (when `timeFilter` is not
      empty), skipping owned papers (when `skipHave` is `"yes"`) and the page
      selected by `pageText`. `now` is the clock reading. */
  function ApplyFilters<S>(pids: seq<string>, scores: seq<S>, metas: map<string, Meta>, now: real,
                           timeFilter: string, skipHave: string, library: map<string, set<string>>,
                           pageText: string)
    : (r: Result<(seq<string>, seq<S>), PipelineError>)
    requires |pids| == |scores|
    ensures r.Err? && r.error.BadTimeFilter? <==> timeFilter != "" && ParseInt(timeFilter).None?
    ensures r.Err? && r.error.MissingMeta? <==>
      timeFilter != "" && ParseInt(timeFilter).Some? && !AllIn(pids, metas)
    ensures r.Err? && r.error.MissingMeta? ==> r.error.pid in pids && r.error.pid !in metas
    ensures r.Ok? ==>
      && |r.value.0| == |r.value.1| <= RetNum
      && IsSubseq(Zip(r.value.0, r.value.1), Zip(pids, scores))
      && (timeFilter != "" ==> forall p :: p in r.value.0 ==>
            Young(p, metas, now, ParseInt(timeFilter).value * DaySeconds))
      && (skipHave == "yes" ==> forall p :: p in r.value.0 ==> p !in Owned(library))
    ensures r.Ok? ==>
      Zip(r.value.0, r.value.1) == FilteredPage(pids, scores, metas, now, timeFilter, skipHave, library, PageNumber(pageText))
  {
    var timed: Result<(seq<string>, seq<S>), PipelineError> :=
      if timeFilter == "" then Ok((pids, scores))
      else match ParseInt(timeFilter)
        case None => Err(BadTimeFilter(timeFilter))
        case Some(days) => TimeFilter(pids, scores, metas, now, days);
    match timed
    case Err(e) => Err(e)
    case Ok(t) =>
      var owned := if skipHave == "yes" then SkipOwned(t.0, t.1, library) else t;
      var page := PageNumber(pageText);
      var paged := Paginate(owned.0, owned.1, page);
      PipelineProperties(pids, scores, metas, now, timeFilter, skipHave, library, t, owned, page);
      ExactPage(pids, scores, metas, now, timeFilter, skipHave, library, t, owned, page);
      Ok(paged)
  }

  /** The time-window stage keeps the pairs in order, and only young papers. */
  lemma TimeStage<S>(pids: seq<string>, scores: seq<S>, metas: map<string, Meta>, now: real,
                     timeFilter: string, t: (seq<string>, seq<S>))
    requires |pids| == |scores| && |t.0| == |t.1|
    requires timeFilter == "" ==> t == (pids, scores)
    requires timeFilter != "" ==>
      ParseInt(timeFilter).Some? && TimeFilter(pids, scores, metas, now, ParseInt(timeFilter).value) == Ok(t)
    ensures IsSubseq(Zip(t.0, t.1), Zip(pids, scores))
    ensures timeFilter != "" ==> forall p :: p in t.0 ==>
      Young(p, metas, now, ParseInt(timeFilter).value * DaySeconds)
  {
    if timeFilter != "" {
      var delta := ParseInt(timeFilter).value * DaySeconds;
      var mask := TimeMask(pids, metas, now, delta);
      FilterIsSubseq(Zip(pids, scores), mask);
      FilterPids(pids, scores, mask, t.0, t.1);
    } else {
      SubseqReflexive(Zip(pids, scores));
    }
  }

  /** The skip-owned stage keeps the pairs in order, and drops every owned paper. */
  lemma OwnedStage<S>(t: (seq<string>, seq<S>), skipHave: string, library: map<string, set<string>>,
                      owned: (seq<string>, seq<S>))
    requires |t.0| == |t.1|
    requires owned == if skipHave == "yes" then SkipOwned(t.0, t.1, library) else t
    ensures |owned.0| == |owned.1|
    ensures IsSubseq(Zip(owned.0, owned.1), Zip(t.0, t.1))
    ensures skipHave == "yes" ==> forall p :: p in owned.0 ==> p !in Owned(library)
  {
    if skipHave == "yes" {
      var mask := NotOwnedMask(t.0, Owned(library));
      FilterIsSubseq(Zip(t.0, t.1), mask);
      FilterPids(t.0, t.1, mask, owned.0, owned.1);
    } else {
      SubseqReflexive(Zip(t.0, t.1));
    }
  }

  /** What each stage of `ApplyFilters` contributes to its postcondition. */
  lemma PipelineProperties<S>(pids: seq<string>, scores: seq<S>, metas: map<string, Meta>, now: real,
                              timeFilter: string, skipHave: string, library: map<string, set<string>>,
                              t: (seq<string>, seq<S>), owned: (seq<string>, seq<S>), page: int)
    requires |pids| == |scores| && |t.0| == |t.1| && page >= 1
    requires timeFilter == "" ==> t == (pids, scores)
    requires timeFilter != "" ==>
      ParseInt(timeFilter).Some? && TimeFilter(pids, scores, metas, now, ParseInt(timeFilter).value) == Ok(t)
    requires owned == if skipHave == "yes" then SkipOwned(t.0, t.1, library) else t
    ensures var paged := Paginate(owned.0, owned.1, page);
      && IsSubseq(Zip(paged.0, paged.1), Zip(pids, scores))
      && (timeFilter != "" ==> forall p :: p in paged.0 ==>
            Young(p, metas, now, ParseInt(timeFilter).value * DaySeconds))
      && (skipHave == "yes" ==> forall p :: p in paged.0 ==> p !in Owned(library))
  {
    TimeStage(pids, scores, metas, now, timeFilter, t);
    OwnedStage(t, skipHave, library, owned);
    var paged := Paginate(owned.0, owned.1, page);
    var zin, zt, zo := Zip(pids, scores), Zip(t.0, t.1), Zip(owned.0, owned.1);
    PaginateIsSlice(owned.0, owned.1, page);
    SubseqTransitive(zo, zt, zin);
    SubseqTransitive(Zip(paged.0, paged.1), zo, zin);
    PidsOfSubseq(owned.0, owned.1, t.0, t.1);
    PidsOfSubseq(paged.0, paged.1, owned.0, owned.1);
  }

  /** After the window stage, the pairs left are exactly those in the window. */
  lemma TimeStageExact<S>(pids: seq<string>, scores: seq<S>, metas: map<string, Meta>, now: real,
                          timeFilter: string, t: (seq<string>, seq<S>))
    requires |pids| == |scores| && |t.0| == |t.1|
    requires timeFilter == "" ==> t == (pids, scores)
    requires timeFilter != "" ==>
      ParseInt(timeFilter).Some? && TimeFilter(pids, scores, metas, now, ParseInt(timeFilter).value) == Ok(t)
    ensures var z := Zip(pids, scores);
      Zip(t.0, t.1) == FilterSeq(z, MaskOf(z, WindowTest(metas, now, timeFilter)))
  {
    var z := Zip(pids, scores);
    var m := MaskOf(z, WindowTest(metas, now, timeFilter));
    if timeFilter == "" {
      FilterAllTrue(z, m);
    } else {
      assert AllIn(pids, metas);
      WindowMaskIsTimeMask(pids, scores, metas, now, timeFilter);
    }
  }

  /** Under a valid window, testing `InWindow` along the pairs is the time mask. */
  lemma WindowMaskIsTimeMask<S>(pids: seq<string>, scores: seq<S>, metas: map<string, Meta>, now: real,
                                timeFilter: string)
    requires |pids| == |scores| && timeFilter != "" && ParseInt(timeFilter).Some? && AllIn(pids, metas)
    ensures MaskOf(Zip(pids, scores), WindowTest(metas, now, timeFilter))
         == TimeMask(pids, metas, now, ParseInt(timeFilter).value * DaySeconds)
  {
    var m := MaskOf(Zip(pids, scores), WindowTest(metas, now, timeFilter));
    var tm := TimeMask(pids, metas, now, ParseInt(timeFilter).value * DaySeconds);
    assert forall i :: 0 <= i < |pids| ==> m[i] == tm[i];
  }

  /** After the skip-owned stage, the pairs left are exactly the shown ones. */
  lemma OwnedStageExact<S>(t: (seq<string>, seq<S>), skipHave: string, library: map<string, set<string>>,
                           owned: (seq<string>, seq<S>))
    requires |t.0| == |t.1|
    requires owned == if skipHave == "yes" then SkipOwned(t.0, t.1, library) else t
    ensures var z := Zip(t.0, t.1);
      Zip(owned.0, owned.1) == FilterSeq(z, MaskOf(z, ShownTest(skipHave, library)))
  {
    var z := Zip(t.0, t.1);
    var m := MaskOf(z, ShownTest(skipHave, library));
    if skipHave == "yes" {
      var nm := NotOwnedMask(t.0, Owned(library));
      assert forall i :: 0 <= i < |z| ==> m[i] == nm[i];
      assert m == nm;
    } else {
      FilterAllTrue(z, m);
    }
  }

  /** The page is a slice of the pairs that pass both filters. */
  lemma PaginateZip<S>(pids: seq<string>, scores: seq<S>, page: int)
    requires |pids| == |scores| && page >= 1
    ensures var r := Paginate(pids, scores, page); var z := Zip(pids, scores);
      var start := (page - 1) * RetNum;
      Zip(r.0, r.1) == PySlice(z, start, Min(start + RetNum, |z|))
  {
    var r := Paginate(pids, scores, page);
    var z := Zip(pids, scores);
    var start := (page - 1) * RetNum;
    var sl := PySlice(z, start, Min(start + RetNum, |z|));
    assert |Zip(r.0, r.1)| == |sl|;
    assert forall k :: 0 <= k < |sl| ==> Zip(r.0, r.1)[k] == sl[k];
  }

  /** The pages of `ApplyFilters` are the pages of one combined filter. */
  lemma ExactPage<S>(pids: seq<string>, scores: seq<S>, metas: map<string, Meta>, now: real,
                     timeFilter: string, skipHave: string, library: map<string, set<string>>,
                     t: (seq<string>, seq<S>), owned: (seq<string>, seq<S>), page: int)
    requires |pids| == |scores| && |t.0| == |t.1| && page >= 1
    requires timeFilter == "" ==> t == (pids, scores)
    requires timeFilter != "" ==>
      ParseInt(timeFilter).Some? && TimeFilter(pids, scores, metas, now, ParseInt(timeFilter).value) == Ok(t)
    requires owned == if skipHave == "yes" then SkipOwned(t.0, t.1, library) else t
    ensures |owned.0| == |owned.1|
    ensures var paged := Paginate(owned.0, owned.1, page);
      Zip(paged.0, paged.1) == FilteredPage(pids, scores, metas, now, timeFilter, skipHave, library, page)
  {
    OwnedStage(t, skipHave, library, owned);
    TimeStageExact(pids, scores, metas, now, timeFilter, t);
    OwnedStageExact(t, skipHave, library, owned);
    BothStages(Zip(pids, scores), Zip(t.0, t.1), Zip(owned.0, owned.1), WindowTest(metas, now, timeFilter),
               ShownTest(skipHave, library));
    PassMaskIsBoth(pids, scores, metas, now, timeFilter, skipHave, library);
    PaginateZip(owned.0, owned.1, page);
  }

  /** Two filter stages by pointwise tests are one filter by both tests. */
  lemma BothStages<T>(z: seq<T>, zt: seq<T>, zo: seq<T>, P: T -> bool, Q: T -> bool)
    requires zt == FilterSeq(z, MaskOf(z, P))
    requires zo == FilterSeq(zt, MaskOf(zt, Q))
    ensures zo == FilterSeq(z, AndMask(MaskOf(z, P), MaskOf(z, Q)))
  {
    FilterByTwoPredicates(z, P, Q);
  }

  lemma PassMaskIsBoth<S>(pids: seq<string>, scores: seq<S>, metas: map<string, Meta>, now: real,
                          timeFilter: string, skipHave: string, library: map<string, set<string>>)
    requires |pids| == |scores|
    ensures var z := Zip(pids, scores);
      PassMask(pids, metas, now, timeFilter, skipHave, library)
        == AndMask(MaskOf(z, WindowTest(metas, now, timeFilter)), MaskOf(z, ShownTest(skipHave, library)))
  {
    var z := Zip(pids, scores);
    var pm := PassMask(pids, metas, now, timeFilter, skipHave, library);
    var am := AndMask(MaskOf(z, WindowTest(metas, now, timeFilter)), MaskOf(z, ShownTest(skipHave, library)));
    assert forall i :: 0 <= i < |z| ==> pm[i] == am[i];
  }

  /** Thirty results: the first page holds 25, the second 5, the third none. */
  lemma PaginationOfThirty<S>(pids: seq<string>, scores: seq<S>)
    requires |pids| == |scores| == 30
    ensures Paginate(pids, scores, 1) == (pids[0..25], scores[0..25])
    ensures Paginate(pids, scores, 2) == (pids[25..30], scores[25..30])
    ensures Paginate(pids, scores, 3) == ([], [])
  {
  }
}

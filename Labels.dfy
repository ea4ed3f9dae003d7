/** The part of `svm_rank` before the classifier is fitted: the early exit,
    the pid-to-row map of the feature matrix and the 0/1 label vector built
    from one target paper or from the papers in the selected tags. */
module Labels {
  import opened Text
  import opened Seqs
  import opened Wrappers

  /** What the labelling step leads to. */
  datatype Labelling =
    | NoSignal                      // `return [], [], []`: nothing to rank by
    | MissingFeatures(pid: string)  // `ptoi[pid]` raises KeyError: a positive paper has no feature row
    | Labelled(y: seq<int>)         // the labels the classifier is fitted to, one per feature row

  /** `tags_db.keys()` for `'all'`, otherwise `set(tags.split(','))`. */
  function SelectedTags(tags: string, library: map<string, set<string>>): (r: set<string>)
    ensures tags == "all" ==> r == library.Keys
    ensures tags != "all" ==> forall t :: t in r <==> t in SplitOn(tags, ',')
  {
    if tags == "all" then library.Keys else set t | t in SplitOn(tags, ',')
  }

  /** Every pid filed under one of the `selected` tags of `library`. */
  function TaggedPapers(selected: set<string>, library: map<string, set<string>>): (r: set<string>)
    ensures forall p :: p in r <==> exists t :: t in library && t in selected && p in library[t]
  {
    set t, p | t in library && t in selected && p in library[t] :: p
  }

  /** The papers that get label 1: the target `pid` when one is given,
      otherwise the papers in the selected tags. */
  function Positives(tags: string, pid: string, library: map<string, set<string>>): (r: set<string>)
    ensures pid != "" ==> r == {pid}
    ensures pid == "" && tags == "all" ==>
      forall p :: p in r <==> exists t :: t in library && p in library[t]
    ensures pid == "" && tags != "all" ==>
      forall p :: p in r <==> exists t :: t in library && t in SplitOn(tags, ',') && p in library[t]
  {
    if pid != "" then {pid} else TaggedPapers(SelectedTags(tags, library), library)
  }

  /** No later row carries the same pid as row `i`. */
  predicate IsLastOccurrence(s: seq<string>, i: nat)
    requires i < |s|
  {
    forall j :: i < j < |s| ==> s[j] != s[i]
  }

  /** The loop that fills `ptoi`: a repeated pid ends up mapped to its last row. */
  method PidIndex(pids: seq<string>) returns (ptoi: map<string, nat>)
    ensures IsPidIndex(ptoi, pids)
  {
    ptoi := map[];
    var i := 0;
    while i < |pids|
      invariant 0 <= i <= |pids|
      invariant forall p :: p in ptoi <==> p in pids[..i]
      invariant forall p :: p in ptoi ==>
        ptoi[p] < i && pids[ptoi[p]] == p && forall j :: ptoi[p] < j < i ==> pids[j] != p
    {
      ptoi := ptoi[pids[i] := i];
      assert pids[..i + 1] == pids[..i] + [pids[i]];
      i := i + 1;
    }
    assert pids[..i] == pids;
  }

  /** Sum of a label vector (`y.sum()`); a 0/1 vector sums to at most its length. */
  function Sum(s: seq<int>): (r: int)
    ensures (forall k :: 0 <= k < |s| ==> s[k] == 0 || s[k] == 1) ==> 0 <= r <= |s|
  {
    if |s| == 0 then 0
    else
      assert forall k :: 0 <= k < |s[1..]| ==> s[1..][k] == s[k + 1];
      s[0] + Sum(s[1..])
  }

  /** A 0/1 vector sums to zero exactly when it has no 1. */
  lemma {:induction false} SumZeroIff(s: seq<int>)
    requires forall k :: 0 <= k < |s| ==> s[k] == 0 || s[k] == 1
    ensures Sum(s) == 0 <==> forall k :: 0 <= k < |s| ==> s[k] == 0
  {
    if |s| > 0 {
      SumZeroIff(s[1..]);
      assert forall k :: 1 <= k < |s| ==> s[k] == s[1..][k - 1];
    }
  }

  /** The expected label of row `i` for the positive set `pos`. */
  function LabelOf(pids: seq<string>, pos: set<string>, i: nat): (r: int)
    requires i < |pids|
    ensures r == 0 || r == 1
    ensures r == 1 <==> pids[i] in pos && forall j :: i < j < |pids| ==> pids[j] != pids[i]
  {
    if pids[i] in pos && IsLastOccurrence(pids, i) then 1 else 0
  }

  /** Two rows that are both the last occurrence of the same pid are the same row. */
  lemma LastOccurrenceUnique(pids: seq<string>, i: nat, j: nat)
    requires i < |pids| && j < |pids| && pids[i] == pids[j]
    requires IsLastOccurrence(pids, i) && IsLastOccurrence(pids, j)
    ensures i == j
  {
  }

  /** `ptoi` maps every pid of the feature rows to its last row. */
  predicate IsPidIndex(ptoi: map<string, nat>, pids: seq<string>) {
    && (forall p :: p in ptoi ==> p in pids)
    && (forall p :: p in pids ==> p in ptoi)
    && (forall p :: p in ptoi ==> ptoi[p] < |pids| && pids[ptoi[p]] == p && IsLastOccurrence(pids, ptoi[p]))
  }

  /** `for pid in ps: y[ptoi[pid]] = 1.0`, stopping at the first pid without a row. */
  method MarkAll(y: array<int>, ptoi: map<string, nat>, pids: seq<string>, ps: set<string>, ghost done: set<string>)
    returns (missing: Option<string>)
    modifies y
    requires y.Length == |pids| && IsPidIndex(ptoi, pids)
    requires forall k :: 0 <= k < |pids| ==> y[k] == LabelOf(pids, done, k)
    ensures missing.Some? ==> missing.value in ps && missing.value !in ptoi
    ensures missing.None? ==>
      && (forall p :: p in ps ==> p in ptoi)
      && (forall k :: 0 <= k < |pids| ==> y[k] == LabelOf(pids, done + ps, k))
  {
    var rest := ps;
    ghost var marked := done;
    while rest != {}
      invariant rest <= ps
      invariant marked == done + (ps - rest)
      invariant forall p :: p in ps - rest ==> p in ptoi
      invariant forall k :: 0 <= k < |pids| ==> y[k] == LabelOf(pids, marked, k)
    {
      var p :| p in rest;
      if p !in ptoi {
        return Some(p);
      }
      y[ptoi[p]] := 1;
      marked := marked + {p};
      forall k | 0 <= k < |pids| ensures y[k] == LabelOf(pids, marked, k) {
        if pids[k] == p && IsLastOccurrence(pids, k) {
          LastOccurrenceUnique(pids, k, ptoi[p]);
        }
      }
      rest := rest - {p};
    }
    return None;
  }

  /** `for tag, pids in tags_db.items(): if tag in tags_filter_to: ...`. */
  method MarkTagged(y: array<int>, ptoi: map<string, nat>, pids: seq<string>,
                    sel: set<string>, library: map<string, set<string>>)
    returns (missing: Option<string>)
    modifies y
    requires y.Length == |pids| && IsPidIndex(ptoi, pids)
    requires forall k :: 0 <= k < |pids| ==> y[k] == 0
    ensures missing.Some? ==> missing.value in TaggedPapers(sel, library) && missing.value !in ptoi
    ensures missing.None? ==>
      && (forall p :: p in TaggedPapers(sel, library) ==> p in ptoi)
      && (forall k :: 0 <= k < |pids| ==> y[k] == LabelOf(pids, TaggedPapers(sel, library), k))
  {
    ghost var pos := TaggedPapers(sel, library);
    ghost var done: set<string> := {};
    var remaining := library.Keys;
    while remaining != {}
      invariant remaining <= library.Keys
      invariant done <= pos
      invariant forall p :: p in done ==> p in ptoi
      invariant forall p :: p in pos && p !in done ==> exists t :: t in remaining && t in sel && p in library[t]
      invariant forall k :: 0 <= k < |pids| ==> y[k] == LabelOf(pids, done, k)
    {
      var t :| t in remaining;
      if t in sel {
        missing := MarkAll(y, ptoi, pids, library[t], done);
        if missing.Some? {
          return;
        }
        done := done + library[t];
      }
      remaining := remaining - {t};
    }
    assert done == pos;
    return None;
  }

  /** `svm_rank(tags, pid)` up to the fit. `featurePids` is `features['pids']`
      and `library` the current user's tag library (`{}` when logged out). */
  method BuildLabels(tags: string, pid: string, featurePids: seq<string>, library: map<string, set<string>>)
    returns (r: Labelling)
    ensures tags == "" && pid == "" ==> r == NoSignal
    ensures tags != "" || pid != "" ==>
      (r.MissingFeatures? <==> exists p :: p in Positives(tags, pid, library) && p !in featurePids)
    ensures r.MissingFeatures? ==> r.pid in Positives(tags, pid, library) && r.pid !in featurePids
    ensures r.NoSignal? <==> (tags == "" && pid == "") || Positives(tags, pid, library) == {}
    ensures r.Labelled? ==>
      && |r.y| == |featurePids|
      && forall i :: 0 <= i < |featurePids| ==> r.y[i] == LabelOf(featurePids, Positives(tags, pid, library), i)
  {
    if tags == "" && pid == "" {
      return NoSignal;
    }
    var n := |featurePids|;
    var ptoi := PidIndex(featurePids);
    var y := new int[n](_ => 0);
    ghost var pos := Positives(tags, pid, library);
    if pid != "" {
      if pid !in ptoi {
        return MissingFeatures(pid);
      }
      var missing := MarkAll(y, ptoi, featurePids, {pid}, {});
      assert missing.None?;
    } else {
      var missing := MarkTagged(y, ptoi, featurePids, SelectedTags(tags, library), library);
      if missing.Some? {
        return MissingFeatures(missing.value);
      }
    }
    assert forall k :: 0 <= k < n ==> y[k] == LabelOf(featurePids, pos, k);
    assert forall p :: p in pos ==> p in ptoi && y[ptoi[p]] == 1;
    SumZeroIff(y[..]);
    if Sum(y[..]) == 0 {
      return NoSignal;
    }
    return Labelled(y[..]);
  }
}

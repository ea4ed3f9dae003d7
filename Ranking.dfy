/** The two rankings that need no query: newest first (`time_rank`) and a
    random order (`random_rank`), over the metadata store. */
module Ranking {
  import opened Seqs

  /** A metadata record; `time` is the paper's `_time`, in epoch seconds. */
  datatype Meta = Meta(time: real)

  const SecondsPerDay: real := 86400.0

  predicate AllIn(s: seq<string>, metas: map<string, Meta>) {
    forall x :: x in s ==> x in metas
  }

  /** Newest first along `s`. */
  ghost predicate NewestFirst(s: seq<string>, metas: map<string, Meta>)
    requires AllIn(s, metas)
  {
    forall i, j :: 0 <= i < j < |s| ==> metas[s[i]].time >= metas[s[j]].time
  }

  /** The elements of `s` whose time is `t`, in their order along `s`. */
  function WithTime(s: seq<string>, metas: map<string, Meta>, t: real): seq<string>
    requires AllIn(s, metas)
  {
    if |s| == 0 then []
    else (if metas[s[0]].time == t then [s[0]] else []) + WithTime(s[1..], metas, t)
  }

  lemma {:induction false} WithTimeAppend(a: seq<string>, b: seq<string>, metas: map<string, Meta>, t: real)
    requires AllIn(a, metas) && AllIn(b, metas)
    ensures WithTime(a + b, metas, t) == WithTime(a, metas, t) + WithTime(b, metas, t)
  {
    if |a| > 0 {
      assert (a + b)[1..] == a[1..] + b;
      WithTimeAppend(a[1..], b, metas, t);
    } else {
      assert a + b == b;
    }
  }

  lemma {:induction false} WithTimeNone(s: seq<string>, metas: map<string, Meta>, t: real)
    requires AllIn(s, metas)
    requires forall k :: 0 <= k < |s| ==> metas[s[k]].time < t
    ensures WithTime(s, metas, t) == []
  {
    if |s| > 0 { WithTimeNone(s[1..], metas, t); }
  }

  /** Insert `p` after every element at least as new: one step of a stable
      sort on `_time`, newest first. */
  function InsertByTime(p: string, s: seq<string>, metas: map<string, Meta>): (r: seq<string>)
    requires p in metas && AllIn(s, metas)
    ensures AllIn(r, metas)
    ensures multiset(r) == multiset(s) + multiset{p}
  {
    if |s| == 0 then [p]
    else if metas[s[0]].time >= metas[p].time then
      assert s == [s[0]] + s[1..];
      [s[0]] + InsertByTime(p, s[1..], metas)
    else [p] + s
  }

  lemma {:induction false} InsertByTimeSorted(p: string, s: seq<string>, metas: map<string, Meta>)
    requires p in metas && AllIn(s, metas) && NewestFirst(s, metas)
    ensures NewestFirst(InsertByTime(p, s, metas), metas)
  {
    if |s| > 0 && metas[s[0]].time >= metas[p].time {
      NewestFirstTail(s, metas);
      InsertByTimeSorted(p, s[1..], metas);
      var rest := InsertByTime(p, s[1..], metas);
      HeadNotOlder(p, s, rest, metas);
      ConsNewestFirst(s[0], rest, metas);
    }
  }

  /** Dropping the head of a newest-first list leaves a newest-first list. */
  lemma NewestFirstTail(s: seq<string>, metas: map<string, Meta>)
    requires |s| > 0 && AllIn(s, metas) && NewestFirst(s, metas)
    ensures NewestFirst(s[1..], metas)
  {
    forall i, j | 0 <= i < j < |s[1..]| ensures metas[s[1..][i]].time >= metas[s[1..][j]].time {
      assert s[1..][i] == s[i + 1] && s[1..][j] == s[j + 1];
    }
  }

  /** The head of a newest-first list is at least as new as the rest with `p` added. */
  lemma HeadNotOlder(p: string, s: seq<string>, rest: seq<string>, metas: map<string, Meta>)
    requires |s| > 0 && p in metas && AllIn(s, metas) && AllIn(rest, metas) && NewestFirst(s, metas)
    requires metas[s[0]].time >= metas[p].time
    requires multiset(rest) == multiset(s[1..]) + multiset{p}
    ensures forall x :: x in rest ==> metas[s[0]].time >= metas[x].time
  {
    forall x | x in rest ensures metas[s[0]].time >= metas[x].time {
      assert x in multiset(rest);
      if x != p {
        assert x in multiset(s[1..]);
        var k :| 0 <= k < |s[1..]| && s[1..][k] == x;
        assert s[k + 1] == x;
      }
    }
  }

  lemma ConsNewestFirst(h: string, rest: seq<string>, metas: map<string, Meta>)
    requires h in metas && AllIn(rest, metas) && NewestFirst(rest, metas)
    requires forall x :: x in rest ==> metas[h].time >= metas[x].time
    ensures AllIn([h] + rest, metas) && NewestFirst([h] + rest, metas)
  {
    var r := [h] + rest;
    forall i, j | 0 <= i < j < |r| ensures metas[r[i]].time >= metas[r[j]].time {
      assert r[j] == rest[j - 1];
      if i > 0 { assert r[i] == rest[i - 1]; }
    }
  }

  lemma {:induction false} InsertByTimeStable(p: string, s: seq<string>, metas: map<string, Meta>, t: real)
    requires p in metas && AllIn(s, metas) && NewestFirst(s, metas)
    ensures WithTime(InsertByTime(p, s, metas), metas, t)
         == WithTime(s, metas, t) + (if metas[p].time == t then [p] else [])
  {
    if |s| == 0 {
    } else if metas[s[0]].time >= metas[p].time {
      NewestFirstTail(s, metas);
      InsertByTimeStable(p, s[1..], metas, t);
      var rest := InsertByTime(p, s[1..], metas);
      var head := if metas[s[0]].time == t then [s[0]] else [];
      var tail := if metas[p].time == t then [p] else [];
      assert ([s[0]] + rest)[1..] == rest;
      assert WithTime([s[0]] + rest, metas, t) == head + WithTime(rest, metas, t);
      assert WithTime(rest, metas, t) == WithTime(s[1..], metas, t) + tail;
      assert WithTime(s, metas, t) == head + WithTime(s[1..], metas, t);
      assert head + (WithTime(s[1..], metas, t) + tail) == (head + WithTime(s[1..], metas, t)) + tail;
    } else {
      assert ([p] + s)[1..] == s;
      if metas[p].time == t {
        WithTimeNone(s, metas, t);
      }
    }
  }

  /** `sorted(items, key=_time, reverse=True)`: a stable sort, newest first. */
  function SortByTime(s: seq<string>, metas: map<string, Meta>): (r: seq<string>)
    requires AllIn(s, metas)
    ensures AllIn(r, metas)
    ensures multiset(r) == multiset(s)
    ensures NewestFirst(r, metas)
    ensures forall t :: WithTime(r, metas, t) == WithTime(s, metas, t)
  {
    if |s| == 0 then []
    else
      var init, last := s[..|s| - 1], s[|s| - 1];
      assert s == init + [last];
      var sortedInit := SortByTime(init, metas);
      InsertByTimeSorted(last, sortedInit, metas);
      var r := InsertByTime(last, sortedInit, metas);
      assert forall t :: WithTime(r, metas, t) == WithTime(s, metas, t) by {
        forall t ensures WithTime(r, metas, t) == WithTime(s, metas, t) {
          InsertByTimeStable(last, sortedInit, metas, t);
          WithTimeAppend(init, [last], metas, t);
        }
      }
      r
  }

  /** `time_rank()`: `order` is the order in which the store lists its items,
      `now` the clock reading. Scores are ages in days. */
  function TimeRank(metas: map<string, Meta>, order: seq<string>, now: real): (r: (seq<string>, seq<real>))
    requires IsEnumeration(order, metas.Keys)
    ensures IsEnumeration(r.0, metas.Keys)
    ensures AllIn(r.0, metas) && NewestFirst(r.0, metas)
    ensures forall t :: WithTime(r.0, metas, t) == WithTime(order, metas, t)
    ensures |r.1| == |r.0|
    ensures forall i :: 0 <= i < |r.0| ==> r.1[i] * SecondsPerDay == now - metas[r.0[i]].time
  {
    var pids := SortByTime(order, metas);
    PermutationOfEnumeration(pids, order, metas.Keys);
    var scores := seq(|pids|, i requires 0 <= i < |pids| => (now - metas[pids[i]].time) / SecondsPerDay);
    (pids, scores)
  }

  /** `random_rank()`: the shuffle is the index permutation `perm`. Scores are 0. */
  function RandomRank(metas: map<string, Meta>, order: seq<string>, perm: seq<int>): (r: (seq<string>, seq<int>))
    requires IsEnumeration(order, metas.Keys)
    requires IsIndexPermutation(perm, |order|)
    ensures IsEnumeration(r.0, metas.Keys)
    ensures |r.1| == |r.0|
    ensures forall i :: 0 <= i < |r.1| ==> r.1[i] == 0
  {
    var pids := seq(|order|, i requires 0 <= i < |order| => order[perm[i]]);
    IndexPermutationOnto(perm, |order|);
    forall x | x in metas.Keys ensures x in pids {
      var j :| 0 <= j < |order| && order[j] == x;
      assert j in perm;
      var i :| 0 <= i < |perm| && perm[i] == j;
      assert pids[i] == x;
    }
    (pids, seq(|pids|, _ => 0))
  }
}

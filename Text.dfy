/** The Python string operations the ranking code relies on, with their
    CPython meaning: `lower()`, `strip()`, `split()`, `split(sep)`, `count(sub)`,
    `' '.join(...)`, string `<`, `int(...)` and `str(...)` on integers. */
module Text {
  import opened Wrappers

  /** The ASCII characters `str.isspace()` accepts (space, \t \n \v \f \r and
      the four separators U+001C..U+001F). */
  predicate IsSpace(c: char): (r: bool)
    ensures r <==> c == ' ' || c == '\t' || c == '\n' || c == '\U{000B}' || c == '\U{000C}' || c == '\r'
                   || c == '\U{001C}' || c == '\U{001D}' || c == '\U{001E}' || c == '\U{001F}'
  {
    var n := c as int;
    n == 32 || 9 <= n <= 13 || 28 <= n <= 31
  }

  function LowerChar(c: char): (r: char)
    ensures 'A' <= c <= 'Z' ==> r as int == c as int + 32
    ensures !('A' <= c <= 'Z') ==> r == c
  {
    if 'A' <= c <= 'Z' then (c as int + 32) as char else c
  }

  /** `s.lower()` on the ASCII letters. */
  function Lower(s: string): (r: string)
    ensures |r| == |s|
    ensures forall i :: 0 <= i < |s| ==> r[i] == LowerChar(s[i])
  {
    seq(|s|, i requires 0 <= i < |s| => LowerChar(s[i]))
  }

  /** A string without ASCII capitals is its own lower-case form. */
  lemma LowerOfNoCapitals(s: string)
    requires forall k :: 0 <= k < |s| ==> !('A' <= s[k] <= 'Z')
    ensures Lower(s) == s
  {
  }

  /** Lower-casing twice is lower-casing once. */
  lemma LowerIdempotent(s: string)
    ensures Lower(Lower(s)) == Lower(s)
  {
    assert forall i :: 0 <= i < |s| ==> LowerChar(LowerChar(s[i])) == LowerChar(s[i]);
  }

  /** A token produced by `split()`: non-empty and free of whitespace. */
  predicate IsWord(w: string) {
    |w| > 0 && forall k :: 0 <= k < |w| ==> !IsSpace(w[k])
  }

  /** Length of the run of non-whitespace characters that starts `s`. */
  function WordLength(s: string): (n: nat)
    requires |s| > 0 && !IsSpace(s[0])
    ensures 0 < n <= |s|
    ensures forall k :: 0 <= k < n ==> !IsSpace(s[k])
    ensures n < |s| ==> IsSpace(s[n])
    decreases |s|
  {
    if |s| == 1 || IsSpace(s[1]) then 1 else 1 + WordLength(s[1..])
  }

  /** `s.split()`: the maximal runs of non-whitespace characters, in order. */
  function SplitWhitespace(s: string): (r: seq<string>)
    ensures forall k :: 0 <= k < |r| ==> IsWord(r[k])
    decreases |s|
  {
    if |s| == 0 then []
    else if IsSpace(s[0]) then SplitWhitespace(s[1..])
    else
      var n := WordLength(s);
      [s[..n]] + SplitWhitespace(s[n..])
  }

  /** Total length of a list of strings. */
  function TotalLength(ws: seq<string>): nat {
    if |ws| == 0 then 0 else |ws[0]| + TotalLength(ws[1..])
  }

  /** `sep.join(ws)`: the strings in order with one `sep` between neighbours. */
  function JoinWith(ws: seq<string>, sep: string): (r: string)
    ensures |ws| > 0 ==> |r| == TotalLength(ws) + (|ws| - 1) * |sep|
    ensures |ws| > 0 ==> r[..|ws[0]|] == ws[0]
    ensures |ws| > 1 ==> r[|ws[0]|..|ws[0]| + |sep|] == sep
  {
    if |ws| == 0 then []
    else if |ws| == 1 then ws[0]
    else ws[0] + sep + JoinWith(ws[1..], sep)
  }

  /** Every string of the list occurs in the joined string. */
  lemma {:induction false} JoinWithContains(ws: seq<string>, sep: string)
    ensures forall k :: 0 <= k < |ws| ==> Occurs(JoinWith(ws, sep), ws[k])
  {
    if |ws| > 0 {
      var r := JoinWith(ws, sep);
      assert OccursAt(r, ws[0], 0);
      if |ws| > 1 {
        JoinWithContains(ws[1..], sep);
        var front := ws[0] + sep;
        assert r == front + JoinWith(ws[1..], sep);
        forall k | 1 <= k < |ws| ensures Occurs(r, ws[k]) {
          assert Occurs(JoinWith(ws[1..], sep), ws[1..][k - 1]);
          var i :| OccursAt(JoinWith(ws[1..], sep), ws[k], i);
          OccursAfter(front, JoinWith(ws[1..], sep), ws[k], i);
        }
      }
    }
  }

  /** An occurrence in `y` is one in `x + y`, moved by `|x|`. */
  lemma OccursAfter(x: string, y: string, t: string, i: int)
    requires OccursAt(y, t, i)
    ensures OccursAt(x + y, t, i + |x|)
  {
    assert (x + y)[i + |x|..i + |x| + |t|] == y[i..i + |t|];
  }

  lemma {:induction false} WordLengthOfWord(w: string, rest: string)
    requires IsWord(w)
    requires rest == [] || IsSpace(rest[0])
    ensures WordLength(w + rest) == |w|
    decreases |w|
  {
    var s := w + rest;
    if |w| > 1 {
      assert IsWord(w[1..]);
      assert s[1..] == w[1..] + rest;
      WordLengthOfWord(w[1..], rest);
    }
  }

  /** The non-whitespace characters of `s`, in order. */
  function NonSpace(s: string): string {
    if |s| == 0 then [] else (if IsSpace(s[0]) then [] else [s[0]]) + NonSpace(s[1..])
  }

  /** All strings of a list, concatenated. */
  function Concat(ws: seq<string>): string {
    if |ws| == 0 then [] else ws[0] + Concat(ws[1..])
  }

  /** A run of `n` non-whitespace characters at the start passes through unchanged. */
  lemma {:induction false} NonSpaceOfPrefix(s: string, n: nat)
    requires n <= |s| && forall k :: 0 <= k < n ==> !IsSpace(s[k])
    ensures NonSpace(s) == s[..n] + NonSpace(s[n..])
    decreases n
  {
    if n > 0 {
      NonSpaceOfPrefix(s[1..], n - 1);
      assert s[1..][n - 1..] == s[n..];
      assert s[..n] == [s[0]] + s[1..][..n - 1];
    } else {
      assert s[0..] == s;
    }
  }

  /** `split()` loses no non-whitespace character and invents none: the words,
      put back together, are the input with its whitespace removed. */
  lemma {:induction false} SplitKeepsNonSpace(s: string)
    ensures Concat(SplitWhitespace(s)) == NonSpace(s)
    decreases |s|
  {
    if |s| > 0 {
      if IsSpace(s[0]) {
        SplitKeepsNonSpace(s[1..]);
      } else {
        var n := WordLength(s);
        SplitKeepsNonSpace(s[n..]);
        NonSpaceOfPrefix(s, n);
        assert SplitWhitespace(s) == [s[..n]] + SplitWhitespace(s[n..]);
        assert Concat(SplitWhitespace(s)) == s[..n] + Concat(SplitWhitespace(s[n..]));
      }
    }
  }

  /** A string of whitespace only has no words. */
  lemma {:induction false} SplitOfSpaces(s: string)
    requires forall k :: 0 <= k < |s| ==> IsSpace(s[k])
    ensures SplitWhitespace(s) == []
    decreases |s|
  {
    if |s| > 0 {
      SplitOfSpaces(s[1..]);
    }
  }

  /** A single word splits into itself. */
  lemma SplitOfWord(w: string)
    requires IsWord(w)
    ensures SplitWhitespace(w) == [w]
  {
    WordLengthOfWord(w, []);
    assert w + [] == w;
    assert w[..|w|] == w && w[|w|..] == [];
  }

  /** Any whitespace character separates: the words of `s` are the words before
      it followed by the words after it. With `SplitOfWord` and `SplitOfSpaces`
      this fixes `split()` on every string. */
  lemma {:induction false} SplitAtSpace(s: string, i: nat)
    requires i < |s| && IsSpace(s[i])
    ensures SplitWhitespace(s) == SplitWhitespace(s[..i]) + SplitWhitespace(s[i + 1..])
    decreases |s|, 2
  {
    if IsSpace(s[0]) {
      if i > 0 {
        assert SplitWhitespace(s[1..]) == SplitWhitespace(s[..i][1..]) + SplitWhitespace(s[i + 1..]) by {
          SplitAtSpace(s[1..], i - 1);
          assert s[1..][..i - 1] == s[..i][1..];
          assert s[1..][i..] == s[i + 1..];
        }
        assert SplitWhitespace(s[..i]) == SplitWhitespace(s[..i][1..]);
      } else {
        assert s[..i] == [];
      }
    } else {
      var n := WordLength(s);
      assert n <= i;
      SplitWordThenSpace(s, i, n);
    }
  }

  /** The case of `SplitAtSpace` where `s` starts with a word of length `n`. */
  lemma {:induction false} SplitWordThenSpace(s: string, i: nat, n: nat)
    requires i < |s| && IsSpace(s[i]) && !IsSpace(s[0]) && n == WordLength(s) && n <= i
    ensures SplitWhitespace(s) == SplitWhitespace(s[..i]) + SplitWhitespace(s[i + 1..])
    decreases |s|, 1
  {
    assert SplitWhitespace(s) == [s[..n]] + SplitWhitespace(s[n..]) by {
      SplitWordPrefix(s, |s|, n);
      assert s[..|s|] == s;
    }
    SplitWordPrefix(s, i, n);
    assert SplitWhitespace(s[n..]) == SplitWhitespace(s[n..i]) + SplitWhitespace(s[i + 1..]) by {
      if n < i {
        SplitAtSpaceRest(s, i, n);
      } else {
        SplitAfterSpace(s[n..], s[i + 1..]);
        assert s[n..i] == [];
      }
    }
    ConsThenAppend(SplitWhitespace(s), SplitWhitespace(s[n..]), SplitWhitespace(s[..i]),
                   SplitWhitespace(s[n..i]), SplitWhitespace(s[i + 1..]), s[..n]);
  }

  lemma ConsThenAppend<T>(x: seq<T>, y: seq<T>, z: seq<T>, a: seq<T>, b: seq<T>, w: T)
    requires x == [w] + y && z == [w] + a && y == a + b
    ensures x == z + b
  {
  }

  /** The first `i` characters of `s`, when they start with the word `s[..n]`,
      split into that word and the words of `s[n..i]`. */
  lemma SplitWordPrefix(s: string, i: nat, n: nat)
    requires n <= i <= |s| && IsWord(s[..n]) && (n == i || IsSpace(s[n]))
    ensures SplitWhitespace(s[..i]) == [s[..n]] + SplitWhitespace(s[n..i])
  {
    assert s[..i] == s[..n] + s[n..i];
    SplitLeadingWord(s[..n], s[n..i]);
  }

  /** A leading whitespace character contributes no word. */
  lemma SplitAfterSpace(s: string, rest: string)
    requires |s| > 0 && IsSpace(s[0]) && rest == s[1..]
    ensures SplitWhitespace(s) == SplitWhitespace(rest)
  {
  }

  /** A word followed by nothing or by whitespace is the first token. */
  lemma SplitLeadingWord(w: string, rest: string)
    requires IsWord(w) && (rest == [] || IsSpace(rest[0]))
    ensures SplitWhitespace(w + rest) == [w] + SplitWhitespace(rest)
  {
    WordLengthOfWord(w, rest);
    assert (w + rest)[..|w|] == w && (w + rest)[|w|..] == rest;
  }

  lemma {:induction false} SplitAtSpaceRest(s: string, i: nat, n: nat)
    requires 0 < n < i < |s| && IsSpace(s[i])
    ensures SplitWhitespace(s[n..]) == SplitWhitespace(s[n..i]) + SplitWhitespace(s[i + 1..])
    decreases |s|, 0
  {
    SplitAtSpace(s[n..], i - n);
    assert s[n..][..i - n] == s[n..i];
    assert s[n..][i - n + 1..] == s[i + 1..];
  }

  /** Splitting words joined by single spaces gives the words back. */
  lemma {:induction false} SplitJoinRoundTrip(ws: seq<string>)
    requires forall k :: 0 <= k < |ws| ==> IsWord(ws[k])
    ensures SplitWhitespace(JoinWith(ws, " ")) == ws
  {
    if |ws| == 1 {
      WordLengthOfWord(ws[0], []);
      assert ws[0][|ws[0]|..] == [];
      assert ws[0][..|ws[0]|] == ws[0];
    } else if |ws| > 1 {
      var rest := " " + JoinWith(ws[1..], " ");
      var s := ws[0] + rest;
      assert JoinWith(ws, " ") == s;
      WordLengthOfWord(ws[0], rest);
      assert s[..|ws[0]|] == ws[0];
      assert s[|ws[0]|..] == rest;
      assert rest[1..] == JoinWith(ws[1..], " ");
      SplitJoinRoundTrip(ws[1..]);
      assert SplitWhitespace(rest) == SplitWhitespace(rest[1..]);
    }
  }

  /** Position of the first `c` in `s`. */
  function IndexOf(s: string, c: char): (i: nat)
    requires c in s
    ensures i < |s| && s[i] == c && c !in s[..i]
  {
    if s[0] == c then 0 else 1 + IndexOf(s[1..], c)
  }

  /** `s.split(sep)` for a one-character separator: empty fields are kept, and
      a string without `sep` gives one field. */
  function SplitOn(s: string, sep: char): (r: seq<string>)
    ensures |r| > 0
    ensures forall k :: 0 <= k < |r| ==> sep !in r[k]
    decreases |s|
  {
    if sep !in s then [s]
    else
      var i := IndexOf(s, sep);
      [s[..i]] + SplitOn(s[i + 1..], sep)
  }

  /** Joining the fields again with the separator gives the original string. */
  lemma {:induction false} SplitOnRoundTrip(s: string, sep: char)
    ensures JoinWith(SplitOn(s, sep), [sep]) == s
    decreases |s|
  {
    if sep in s {
      var i := IndexOf(s, sep);
      var rest := SplitOn(s[i + 1..], sep);
      SplitOnRoundTrip(s[i + 1..], sep);
      JoinWithCons(s[..i], rest, [sep]);
      assert s == s[..i] + [sep] + s[i + 1..];
    }
  }

  /** Joining a list with a head is the head, the separator, then the rest joined. */
  lemma JoinWithCons(w: string, ws: seq<string>, sep: string)
    requires |ws| > 0
    ensures JoinWith([w] + ws, sep) == w + sep + JoinWith(ws, sep)
  {
    assert ([w] + ws)[1..] == ws;
  }

  /** `t` occurs as a substring of `s`. */
  ghost predicate Occurs(s: string, t: string) {
    exists i :: OccursAt(s, t, i)
  }

  /** `t` occurs in `s` starting at position `i`. */
  predicate OccursAt(s: string, t: string, i: int) {
    0 <= i && i + |t| <= |s| && s[i..i + |t|] == t
  }

  /** `s.count(t)`: the number of non-overlapping occurrences of `t`, found
      left to right; CPython counts `|s| + 1` for the empty string. */
  function Count(s: string, t: string): (n: nat)
    ensures |t| > 0 ==> n * |t| <= |s|
    decreases |s|
  {
    if |t| == 0 then |s| + 1
    else if |s| < |t| then 0
    else if s[..|t|] == t then 1 + Count(s[|t|..], t)
    else Count(s[1..], t)
  }

  /** `ps` lists positions of occurrences of `t` in `s`, increasing and
      pairwise non-overlapping. */
  ghost predicate Occurrences(s: string, t: string, ps: seq<int>) {
    && (forall k :: 0 <= k < |ps| ==> OccursAt(s, t, ps[k]))
    && (forall i, j :: 0 <= i < j < |ps| ==> ps[i] + |t| <= ps[j])
  }

  /** The count is the largest number of non-overlapping occurrences: there are
      that many, and no family of non-overlapping occurrences is larger. */
  lemma CountIsNonOverlapping(s: string, t: string)
    requires |t| > 0
    ensures exists ps :: |ps| == Count(s, t) && Occurrences(s, t, ps)
    ensures forall ps :: Occurrences(s, t, ps) ==> |ps| <= Count(s, t)
  {
    CountHasOccurrences(s, t);
    forall ps | Occurrences(s, t, ps) ensures |ps| <= Count(s, t) {
      CountIsMaximal(s, t, ps);
    }
  }

  /** Every entry of `ps` moved by `d`. */
  function Shift(ps: seq<int>, d: int): (r: seq<int>)
    ensures |r| == |ps| && forall k :: 0 <= k < |ps| ==> r[k] == ps[k] + d
  {
    seq(|ps|, k requires 0 <= k < |ps| => ps[k] + d)
  }

  lemma OccursAtDrop(s: string, t: string, d: nat, i: int)
    requires d <= |s| && 0 <= i
    ensures OccursAt(s[d..], t, i) <==> OccursAt(s, t, i + d)
  {
    if 0 <= i && i + d + |t| <= |s| {
      assert s[d..][i..i + |t|] == s[i + d..i + d + |t|];
    }
  }

  /** Occurrences in a suffix, moved back by the length of the dropped prefix. */
  lemma ShiftOccurrences(s: string, t: string, d: nat, ps: seq<int>)
    requires d <= |s| && Occurrences(s[d..], t, ps)
    ensures Occurrences(s, t, Shift(ps, d))
  {
    forall k | 0 <= k < |ps| ensures OccursAt(s, t, Shift(ps, d)[k]) {
      assert OccursAt(s[d..], t, ps[k]);
      OccursAtDrop(s, t, d, ps[k]);
    }
  }

  lemma {:induction false} CountHasOccurrences(s: string, t: string)
    requires |t| > 0
    ensures exists ps :: |ps| == Count(s, t) && Occurrences(s, t, ps)
    decreases |s|
  {
    if |s| < |t| {
      assert Occurrences(s, t, []);
    } else if s[..|t|] == t {
      CountHasOccurrences(s[|t|..], t);
      var ps :| |ps| == Count(s[|t|..], t) && Occurrences(s[|t|..], t, ps);
      ShiftOccurrences(s, t, |t|, ps);
      var qs := [0] + Shift(ps, |t|);
      assert OccursAt(s, t, 0);
      assert forall k :: 0 <= k < |ps| ==> 0 <= ps[k] by {
        forall k | 0 <= k < |ps| ensures 0 <= ps[k] { assert OccursAt(s[|t|..], t, ps[k]); }
      }
      assert Occurrences(s, t, qs);
    } else {
      CountHasOccurrences(s[1..], t);
      var ps :| |ps| == Count(s[1..], t) && Occurrences(s[1..], t, ps);
      ShiftOccurrences(s, t, 1, ps);
    }
  }

  lemma {:induction false} CountIsMaximal(s: string, t: string, ps: seq<int>)
    requires |t| > 0 && Occurrences(s, t, ps)
    ensures |ps| <= Count(s, t)
    decreases |s|
  {
    if |ps| > 0 {
      assert OccursAt(s, t, ps[0]);
      if s[..|t|] == t {
        var moved := DropFirstOccurrence(s, t, ps);
        CountIsMaximal(s[|t|..], t, moved);
      } else {
        var moved := DropFirstChar(s, t, ps);
        CountIsMaximal(s[1..], t, moved);
      }
    }
  }

  /** Occurrences after the first one, seen from the text after its length. */
  lemma DropFirstOccurrence(s: string, t: string, ps: seq<int>) returns (moved: seq<int>)
    requires |t| > 0 && |ps| > 0 && Occurrences(s, t, ps) && |t| <= |s|
    ensures |moved| == |ps| - 1 && Occurrences(s[|t|..], t, moved)
  {
    assert OccursAt(s, t, ps[0]);
    moved := seq(|ps| - 1, k requires 0 <= k < |ps| - 1 => ps[k + 1] - |t|);
    forall k | 0 <= k < |moved| ensures OccursAt(s[|t|..], t, moved[k]) {
      assert ps[0] + |t| <= ps[k + 1] && OccursAt(s, t, ps[k + 1]);
      OccursAtDrop(s, t, |t|, moved[k]);
    }
  }

  /** When `t` does not start `s`, every occurrence is one in the text after the first character. */
  lemma DropFirstChar(s: string, t: string, ps: seq<int>) returns (moved: seq<int>)
    requires |t| > 0 && |ps| > 0 && Occurrences(s, t, ps) && |t| <= |s| && s[..|t|] != t
    ensures |moved| == |ps| && Occurrences(s[1..], t, moved)
  {
    assert OccursAt(s, t, ps[0]) && ps[0] != 0;
    moved := Shift(ps, -1);
    forall k | 0 <= k < |moved| ensures OccursAt(s[1..], t, moved[k]) {
      assert OccursAt(s, t, ps[k]);
      assert k > 0 ==> ps[0] + |t| <= ps[k];
      OccursAtDrop(s, t, 1, moved[k]);
    }
  }

  /** A non-empty `t` is counted at least once exactly when it occurs. */
  lemma {:induction false} CountPositiveIffOccurs(s: string, t: string)
    requires |t| > 0
    ensures Count(s, t) > 0 <==> Occurs(s, t)
    decreases |s|
  {
    if |s| >= |t| {
      if s[..|t|] == t {
        assert OccursAt(s, t, 0);
      } else {
        CountPositiveIffOccurs(s[1..], t);
        OccursInTail(s, t);
      }
    } else {
      assert forall i :: !OccursAt(s, t, i);
    }
  }

  /** When `t` does not start `s`, it occurs in `s` exactly when it occurs after the first character. */
  lemma OccursInTail(s: string, t: string)
    requires |s| >= |t| > 0 && s[..|t|] != t
    ensures Occurs(s, t) <==> Occurs(s[1..], t)
  {
    if Occurs(s[1..], t) {
      var i :| OccursAt(s[1..], t, i);
      OccursAtShift(s, t, i);
    }
    if Occurs(s, t) {
      var i :| OccursAt(s, t, i);
      assert i != 0;
      OccursAtShift(s, t, i - 1);
    }
  }

  lemma OccursAtShift(s: string, t: string, i: nat)
    requires |s| > 0
    ensures OccursAt(s[1..], t, i) <==> OccursAt(s, t, i + 1)
  {
    if i + 1 + |t| <= |s| {
      assert s[1..][i..i + |t|] == s[i + 1..i + 1 + |t|];
    }
  }

  /** A string that lacks one of the characters of `t` does not contain `t`. */
  lemma CountWithoutChar(s: string, t: string, c: char)
    requires c in t && c !in s
    ensures Count(s, t) == 0
  {
    CountPositiveIffOccurs(s, t);
  }

  /** A word followed by text that lacks one of its characters is counted once. */
  lemma CountLeadingWord(w: string, rest: string, c: char)
    requires c in w && c !in rest
    ensures Count(w + rest, w) == 1
  {
    var s := w + rest;
    assert s[..|w|] == w && s[|w|..] == rest;
    CountWithoutChar(rest, w, c);
  }

  /** Python's `<` on strings: lexicographic on code points, a proper prefix first. */
  predicate StrLess(a: string, b: string): (r: bool)
    ensures r ==> a != b
    ensures a < b ==> r
    decreases |a|
  {
    if |a| == 0 then |b| > 0
    else if |b| == 0 then false
    else if a[0] != b[0] then a[0] < b[0]
    else StrLess(a[1..], b[1..])
  }

  /** At the first position where two strings differ, their characters decide the order. */
  lemma {:induction false} StrLessFirstDifference(a: string, b: string, i: nat)
    requires i < |a| && i < |b| && a[..i] == b[..i] && a[i] != b[i]
    ensures StrLess(a, b) <==> a[i] < b[i]
    decreases i
  {
    if i > 0 {
      assert a[0] == a[..i][0] == b[..i][0] == b[0];
      assert a[1..][..i - 1] == a[..i][1..] == b[..i][1..] == b[1..][..i - 1];
      StrLessFirstDifference(a[1..], b[1..], i - 1);
    }
  }

  lemma {:induction false} StrLessIrreflexive(a: string)
    ensures !StrLess(a, a)
    decreases |a|
  {
    if |a| > 0 { StrLessIrreflexive(a[1..]); }
  }

  lemma {:induction false} StrLessTransitive(a: string, b: string, c: string)
    requires StrLess(a, b) && StrLess(b, c)
    ensures StrLess(a, c)
    decreases |a|
  {
    if |a| > 0 && a[0] == b[0] && b[0] == c[0] {
      StrLessTransitive(a[1..], b[1..], c[1..]);
    }
  }

  /** Any two different strings are ordered one way. */
  lemma {:induction false} StrLessTotal(a: string, b: string)
    requires a != b
    ensures StrLess(a, b) || StrLess(b, a)
    decreases |a|
  {
    if |a| > 0 && |b| > 0 && a[0] == b[0] {
      assert a == [a[0]] + a[1..] && b == [b[0]] + b[1..];
      StrLessTotal(a[1..], b[1..]);
    }
  }

  lemma {:induction false} StrLessAsymmetric(a: string, b: string)
    requires StrLess(a, b)
    ensures !StrLess(b, a)
  {
    if StrLess(b, a) {
      StrLessTransitive(a, b, a);
      StrLessIrreflexive(a);
    }
  }

  /** `s.lstrip()`: the leading whitespace removed, and nothing else. */
  function StripLeft(s: string): (r: string)
    ensures |r| <= |s| && r == s[|s| - |r|..]
    ensures forall k :: 0 <= k < |s| - |r| ==> IsSpace(s[k])
    ensures |r| > 0 ==> !IsSpace(r[0])
  {
    if |s| > 0 && IsSpace(s[0]) then StripLeft(s[1..]) else s
  }

  /** `s.rstrip()`: the trailing whitespace removed, and nothing else. */
  function StripRight(s: string): (r: string)
    ensures |r| <= |s| && r == s[..|r|]
    ensures forall k :: |r| <= k < |s| ==> IsSpace(s[k])
    ensures |r| > 0 ==> !IsSpace(r[|r| - 1])
  {
    if |s| > 0 && IsSpace(s[|s| - 1]) then StripRight(s[..|s| - 1]) else s
  }

  /** `r` is the piece of `s` starting at `i`, with only whitespace before and
      after it. */
  predicate IsPieceBetweenSpaces(s: string, r: string, i: nat) {
    && i + |r| <= |s| && r == s[i..i + |r|]
    && (forall k :: 0 <= k < i ==> IsSpace(s[k]))
    && (forall k :: i + |r| <= k < |s| ==> IsSpace(s[k]))
  }

  /** `s.strip()` with no argument: a contiguous piece of `s` that neither
      starts nor ends with whitespace, with only whitespace before and after it. */
  function Strip(s: string): (r: string)
    ensures IsPieceBetweenSpaces(s, r, |s| - |StripLeft(s)|)
    ensures |r| > 0 ==> !IsSpace(r[0]) && !IsSpace(r[|r| - 1])
  {
    PieceOfSuffix(s, StripLeft(s), StripRight(StripLeft(s)));
    StripRight(StripLeft(s))
  }

  /** The whitespace-free ends of a prefix `r` of a suffix `t` of `s`, each cut
      off only whitespace, make `r` the strip of `s`. */
  lemma PieceOfSuffix(s: string, t: string, r: string)
    requires |t| <= |s| && t == s[|s| - |t|..] && forall k :: 0 <= k < |s| - |t| ==> IsSpace(s[k])
    requires |t| > 0 ==> !IsSpace(t[0])
    requires |r| <= |t| && r == t[..|r|] && forall k :: |r| <= k < |t| ==> IsSpace(t[k])
    requires |r| > 0 ==> !IsSpace(r[|r| - 1])
    ensures IsPieceBetweenSpaces(s, r, |s| - |t|)
    ensures |r| > 0 ==> !IsSpace(r[0]) && !IsSpace(r[|r| - 1])
  {
    var i := |s| - |t|;
    forall k | i + |r| <= k < |s| ensures IsSpace(s[k]) {
      assert s[k] == t[k - i];
    }
    if |r| > 0 {
      assert r[0] == t[0];
    }
  }

  predicate IsDigit(c: char) { '0' <= c <= '9' }

  function DigitValue(c: char): (d: nat)
    requires IsDigit(c)
    ensures d < 10
  {
    c as int - '0' as int
  }

  predicate IsDigits(s: string) {
    |s| > 0 && forall k :: 0 <= k < |s| ==> IsDigit(s[k])
  }

  /** Value of a string of decimal digits. */
  function DigitsValue(s: string): (n: nat)
    requires forall k :: 0 <= k < |s| ==> IsDigit(s[k])
  {
    if |s| == 0 then 0
    else 10 * DigitsValue(s[..|s| - 1]) + DigitValue(s[|s| - 1])
  }

  /** The integer literals `int()` accepts once stripped: an optional sign
      followed by at least one ASCII digit. */
  predicate IsIntLiteral(t: string) {
    IsDigits(t) || (|t| > 0 && (t[0] == '-' || t[0] == '+') && IsDigits(t[1..]))
  }

  /** The separators U+001C..U+001F: whitespace to `strip()` and `split()`,
      but not to `int()`, which skips only space, \t \n \v \f and \r. */
  predicate IsSeparator(c: char) { '\U{001C}' <= c <= '\U{001F}' }

  predicate HasSeparator(s: string) {
    exists k :: 0 <= k < |s| && IsSeparator(s[k])
  }

  /** `int(s)` in base 10: surrounding whitespace other than the separators,
      an optional sign and at least one ASCII digit; anything else is the
      `ValueError` case `None`. */
  function ParseInt(s: string): (r: Option<int>)
    ensures r.Some? <==> !HasSeparator(s) && IsIntLiteral(Strip(s))
    ensures r.Some? ==> r == ParseSigned(Strip(s))
  {
    if HasSeparator(s) then None else ParseSigned(Strip(s))
  }

  /** `int()` refuses a separator anywhere: `"\U{001C}2"` strips to `"2"`, yet
      it does not parse. */
  lemma SeparatorRefused(s: string, k: nat)
    requires k < |s| && IsSeparator(s[k])
    ensures ParseInt(s) == None
  {
  }

  /** `int` of an already stripped string: the digits' value, negated after `-`. */
  function ParseSigned(t: string): (r: Option<int>)
    ensures r.Some? <==> IsIntLiteral(t)
    ensures IsDigits(t) ==> r == Some(DigitsValue(t))
    ensures r.Some? && t[0] == '-' ==> r.value == -(DigitsValue(t[1..]) as int)
    ensures r.Some? && t[0] == '+' ==> r.value == DigitsValue(t[1..])
  {
    if |t| > 0 && (t[0] == '-' || t[0] == '+') then
      if IsDigits(t[1..]) then
        Some(if t[0] == '-' then -(DigitsValue(t[1..]) as int) else DigitsValue(t[1..]))
      else None
    else if IsDigits(t) then Some(DigitsValue(t))
    else None
  }

  function DigitChar(d: nat): (c: char)
    requires d < 10
    ensures IsDigit(c) && DigitValue(c) == d
  {
    ('0' as int + d) as char
  }

  /** `str(n)` for a natural number: decimal digits without a leading zero. */
  function NatToString(n: nat): (s: string)
    ensures IsDigits(s)
    ensures s[0] == '0' <==> n == 0
  {
    if n < 10 then [DigitChar(n)] else NatToString(n / 10) + [DigitChar(n % 10)]
  }

  /** `str(n)` for an integer: a `-` exactly for negative numbers, then the
      digits, with no leading zero except in `"0"` itself. */
  function IntToString(n: int): (r: string)
    ensures |r| > 0 && (r[0] == '-' <==> n < 0)
    ensures n >= 0 ==> IsDigits(r) && (r[0] == '0' <==> n == 0)
    ensures n < 0 ==> IsDigits(r[1..]) && r[1] != '0'
  {
    if n < 0 then "-" + NatToString(-n) else NatToString(n)
  }

  lemma {:induction false} DigitsRoundTrip(n: nat)
    ensures DigitsValue(NatToString(n)) == n
  {
    if n >= 10 {
      DigitsRoundTrip(n / 10);
      var s := NatToString(n);
      assert s[..|s| - 1] == NatToString(n / 10);
    }
  }

  /** Leading whitespace does not change `split()`. */
  lemma {:induction false} SplitSkipsLeadingSpace(s: string)
    ensures SplitWhitespace(StripLeft(s)) == SplitWhitespace(s)
    decreases |s|
  {
    if |s| > 0 && IsSpace(s[0]) {
      SplitSkipsLeadingSpace(s[1..]);
    }
  }

  /** One more whitespace character at the end does not change `split()`. */
  lemma {:induction false} SplitIgnoresTrailingSpace(s: string, c: char)
    requires IsSpace(c)
    ensures SplitWhitespace(s + [c]) == SplitWhitespace(s)
    decreases |s|
  {
    var t := s + [c];
    if |s| == 0 {
      assert t[1..] == [];
    } else if IsSpace(s[0]) {
      assert t[1..] == s[1..] + [c];
      SplitIgnoresTrailingSpace(s[1..], c);
    } else {
      var n := WordLength(s);
      assert IsWord(s[..n]);
      assert t == s[..n] + (s[n..] + [c]);
      WordLengthOfWord(s[..n], s[n..] + [c]);
      assert t[..n] == s[..n];
      assert t[n..] == s[n..] + [c];
      SplitIgnoresTrailingSpace(s[n..], c);
    }
  }

  lemma {:induction false} SplitIgnoresStripRight(s: string)
    ensures SplitWhitespace(StripRight(s)) == SplitWhitespace(s)
    decreases |s|
  {
    if |s| > 0 && IsSpace(s[|s| - 1]) {
      var init := s[..|s| - 1];
      SplitIgnoresStripRight(init);
      assert s == init + [s[|s| - 1]];
      SplitIgnoresTrailingSpace(init, s[|s| - 1]);
    }
  }

  /** `s.strip().split() == s.split()`. */
  lemma SplitOfStrip(s: string)
    ensures SplitWhitespace(Strip(s)) == SplitWhitespace(s)
  {
    SplitIgnoresStripRight(StripLeft(s));
    SplitSkipsLeadingSpace(s);
  }

  lemma StripNoSpaceEnds(s: string)
    requires |s| > 0 && !IsSpace(s[0]) && !IsSpace(s[|s| - 1])
    ensures Strip(s) == s
  {
  }

  lemma {:induction false} StripLeftOfSpaces(pre: string, t: string)
    requires forall k :: 0 <= k < |pre| ==> IsSpace(pre[k])
    requires |t| > 0 && !IsSpace(t[0])
    ensures StripLeft(pre + t) == t
    decreases |pre|
  {
    if |pre| > 0 {
      assert (pre + t)[1..] == pre[1..] + t;
      StripLeftOfSpaces(pre[1..], t);
    }
  }

  lemma {:induction false} StripRightOfSpaces(t: string, post: string)
    requires forall k :: 0 <= k < |post| ==> IsSpace(post[k])
    requires |t| > 0 && !IsSpace(t[|t| - 1])
    ensures StripRight(t + post) == t
    decreases |post|
  {
    if |post| > 0 {
      assert (t + post)[..|t + post| - 1] == t + post[..|post| - 1];
      StripRightOfSpaces(t, post[..|post| - 1]);
    } else {
      assert t + post == t;
    }
  }

  /** `int()` ignores whitespace around the literal. */
  lemma ParseIntPadded(pre: string, t: string, post: string)
    requires forall k :: 0 <= k < |pre| ==> IsSpace(pre[k]) && !IsSeparator(pre[k])
    requires forall k :: 0 <= k < |post| ==> IsSpace(post[k]) && !IsSeparator(post[k])
    requires |t| > 0 && !IsSpace(t[0]) && !IsSpace(t[|t| - 1])
    ensures ParseInt(pre + t + post) == ParseSigned(t)
  {
    assert pre + t + post == pre + (t + post);
    StripLeftOfSpaces(pre, t + post);
    StripRightOfSpaces(t, post);
    if IsIntLiteral(t) {
      LiteralHasNoSeparator(t);
      PaddingHasNoSeparator(pre, t, post);
    }
  }

  /** A literal `int()` accepts is made of a sign and digits only. */
  lemma LiteralHasNoSeparator(t: string)
    requires IsIntLiteral(t)
    ensures !HasSeparator(t)
  {
    forall k | 0 <= k < |t| ensures !IsSeparator(t[k]) {
      if k > 0 {
        assert t[k] == t[1..][k - 1];
      }
    }
  }

  lemma PaddingHasNoSeparator(pre: string, t: string, post: string)
    requires forall k :: 0 <= k < |pre| ==> !IsSeparator(pre[k])
    requires forall k :: 0 <= k < |post| ==> !IsSeparator(post[k])
    requires !HasSeparator(t)
    ensures !HasSeparator(pre + t + post)
  {
    var s := pre + t + post;
    forall k | 0 <= k < |s| ensures !IsSeparator(s[k]) {
      if k < |pre| {
        assert s[k] == pre[k];
      } else if k < |pre| + |t| {
        assert s[k] == t[k - |pre|];
      } else {
        assert s[k] == post[k - |pre| - |t|];
      }
    }
  }

  /** `int(str(n)) == n`. */
  lemma ParseIntOfString(n: int)
    ensures ParseInt(IntToString(n)) == Some(n)
  {
    var s := IntToString(n);
    var d := if n < 0 then NatToString(-n) else NatToString(n);
    DigitsRoundTrip(if n < 0 then -n else n);
    assert IsDigit(d[0]) && IsDigit(d[|d| - 1]);
    if n < 0 {
      assert s == "-" + d && s[1..] == d && s[|s| - 1] == d[|d| - 1];
    } else {
      assert s == d;
    }
    StripNoSpaceEnds(s);
    LiteralHasNoSeparator(s);
  }
}

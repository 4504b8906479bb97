/** Global replacement of a literal pattern, as `String.prototype.replaceAll`
    with a string pattern, or `replace` with a regular expression that is a
    plain literal and carries the `g` flag (optionally `i`). Matches are found
    left to right, do not overlap, and the search resumes after each match. */
module Replacing {
  import opened Chars
  import opened Wrappers

  predicate MatchesAt(s: string, pat: string, ignoreCase: bool) {
    if ignoreCase then StartsWithIgnoreCase(s, pat) else StartsWith(s, pat)
  }

  /** Some position of `s` starts a match of `pat`. */
  predicate Contains(s: string, pat: string, ignoreCase: bool)
    decreases |s|
  {
    |s| > 0 && (MatchesAt(s, pat, ignoreCase) || Contains(s[1..], pat, ignoreCase))
  }

  function Replace(s: string, pat: string, rep: string, ignoreCase: bool): string
    requires pat != []
    decreases |s|
  {
    if |s| == 0 then []
    else if MatchesAt(s, pat, ignoreCase) then rep + Replace(s[|pat|..], pat, rep, ignoreCase)
    else [s[0]] + Replace(s[1..], pat, rep, ignoreCase)
  }

  /** Text without the pattern comes out unchanged. */
  lemma {:induction false} ReplaceAbsent(s: string, pat: string, rep: string, ignoreCase: bool)
    requires pat != [] && !Contains(s, pat, ignoreCase)
    ensures Replace(s, pat, rep, ignoreCase) == s
    decreases |s|
  {
    if |s| > 0 {
      ReplaceAbsent(s[1..], pat, rep, ignoreCase);
      assert [s[0]] + s[1..] == s;
    }
  }

  /** `s.split(pat)`: the pieces between the left-to-right, non-overlapping occurrences. */
  function Split(s: string, pat: string): (parts: seq<string>)
    requires pat != []
    ensures |parts| >= 1
    decreases |s|
  {
    if |s| == 0 then [[]]
    else if StartsWith(s, pat) then [[]] + Split(s[|pat|..], pat)
    else
      var t := Split(s[1..], pat);
      [[s[0]] + t[0]] + t[1..]
  }

  /** `parts.join(sep)`. */
  function Join(parts: seq<string>, sep: string): string
    requires |parts| >= 1
    decreases |parts|
  {
    if |parts| == 1 then parts[0] else parts[0] + sep + Join(parts[1..], sep)
  }

  /** Case-sensitive replacement agrees with `s.split(pat).join(rep)`. */
  lemma {:induction false} ReplaceIsSplitJoin(s: string, pat: string, rep: string)
    requires pat != []
    ensures Replace(s, pat, rep, false) == Join(Split(s, pat), rep)
    decreases |s|
  {
    if |s| == 0 {
    } else if StartsWith(s, pat) {
      var rest := Split(s[|pat|..], pat);
      assert Replace(s, pat, rep, false) == rep + Replace(s[|pat|..], pat, rep, false);
      assert Split(s, pat) == [[]] + rest;
      ReplaceIsSplitJoin(s[|pat|..], pat, rep);
      assert ([[]] + rest)[1..] == rest;
    } else {
      var t := Split(s[1..], pat);
      assert Replace(s, pat, rep, false) == [s[0]] + Replace(s[1..], pat, rep, false);
      assert Split(s, pat) == [[s[0]] + t[0]] + t[1..];
      ReplaceIsSplitJoin(s[1..], pat, rep);
      JoinCons(s[0], t, rep);
    }
  }

  /** A character put in front of the first piece comes out in front. */
  lemma JoinCons(c: char, t: seq<string>, sep: string)
    requires |t| >= 1
    ensures Join([[c] + t[0]] + t[1..], sep) == [c] + Join(t, sep)
  {
    var u := [[c] + t[0]] + t[1..];
    assert u[0] == [c] + t[0] && u[1..] == t[1..];
    if |t| > 1 {
      assert Join(u, sep) == [c] + t[0] + sep + Join(t[1..], sep);
      assert Join(t, sep) == t[0] + sep + Join(t[1..], sep);
    }
  }

  /** Joining the pieces with the pattern itself gives the text back. */
  lemma {:induction false} SplitJoinRoundTrip(s: string, pat: string)
    requires pat != []
    ensures Join(Split(s, pat), pat) == s
  {
    ReplaceIsSplitJoin(s, pat, pat);
    ReplaceWithItself(s, pat);
  }

  lemma {:induction false} ReplaceWithItself(s: string, pat: string)
    requires pat != []
    ensures Replace(s, pat, pat, false) == s
    decreases |s|
  {
    if |s| == 0 {
    } else if StartsWith(s, pat) {
      ReplaceWithItself(s[|pat|..], pat);
      assert pat + s[|pat|..] == s;
    } else {
      ReplaceWithItself(s[1..], pat);
      assert [s[0]] + s[1..] == s;
    }
  }

  /** A prefix of the output free of the replacement's first character was
      copied straight from the input. */
  lemma {:induction false} PrefixCopied(s: string, pat: string, rep: string, ignoreCase: bool, w: string)
    requires pat != [] && rep != []
    requires Excludes(w, rep[0])
    requires StartsWith(Replace(s, pat, rep, ignoreCase), w)
    ensures StartsWith(s, w)
    decreases |w|
  {
    if w != [] {
      var r := Replace(s, pat, rep, ignoreCase);
      assert r[0] == w[0];
      assert |s| > 0;
      if !MatchesAt(s, pat, ignoreCase) {
        assert r == [s[0]] + Replace(s[1..], pat, rep, ignoreCase);
        assert StartsWith(Replace(s[1..], pat, rep, ignoreCase), w[1..]) by {
          assert r[1..][..|w| - 1] == r[..|w|][1..];
        }
        PrefixCopied(s[1..], pat, rep, ignoreCase, w[1..]);
        assert s[..|w|] == [s[0]] + s[1..][..|w| - 1];
      }
    }
  }

  /** Without a match in the first `|a|` positions, only `b` can hold one. */
  lemma {:induction false} ContainsAfter(a: string, b: string, pat: string, ignoreCase: bool)
    requires forall k :: 0 <= k < |a| ==> !MatchesAt((a + b)[k..], pat, ignoreCase)
    ensures Contains(a + b, pat, ignoreCase) == Contains(b, pat, ignoreCase)
    decreases |a|
  {
    if a == [] {
      assert a + b == b;
    } else {
      assert (a + b)[1..] == a[1..] + b;
      forall k | 0 <= k < |a| - 1 ensures !MatchesAt((a[1..] + b)[k..], pat, ignoreCase) {
        assert (a[1..] + b)[k..] == (a + b)[k + 1..];
      }
      assert (a + b)[0..] == a + b;
      ContainsAfter(a[1..], b, pat, ignoreCase);
    }
  }

  /** A match at position `k` is a match somewhere. */
  lemma {:induction false} ContainsAt(s: string, k: nat, pat: string, ignoreCase: bool)
    requires k < |s| && MatchesAt(s[k..], pat, ignoreCase)
    ensures Contains(s, pat, ignoreCase)
    decreases k
  {
    if k == 0 {
      assert s[0..] == s;
    } else {
      assert s[1..][k - 1..] == s[k..];
      ContainsAt(s[1..], k - 1, pat, ignoreCase);
    }
  }

  /** `s.indexOf(pat, from)`: the first position at or after `from` where `pat` occurs. */
  function IndexOf(s: string, pat: string, from: nat): (r: Option<nat>)
    requires from <= |s|
    ensures r.Some? ==> from <= r.value <= |s| && StartsWith(s[r.value..], pat)
    ensures r.Some? ==> forall k :: from <= k < r.value ==> !StartsWith(s[k..], pat)
    ensures r.None? ==> forall k :: from <= k <= |s| ==> !StartsWith(s[k..], pat)
    decreases |s| - from
  {
    if StartsWith(s[from..], pat) then Some(from)
    else if from == |s| then None
    else IndexOf(s, pat, from + 1)
  }

  /** `IndexOf` finds the first occurrence at or after `from`. */
  lemma {:induction false} IndexOfFirst(s: string, pat: string, from: nat, j: nat)
    requires from <= j <= |s| && StartsWith(s[j..], pat)
    requires forall k :: from <= k < j ==> !StartsWith(s[k..], pat)
    ensures IndexOf(s, pat, from) == Some(j)
    decreases j - from
  {
    if from < j {
      IndexOfFirst(s, pat, from + 1, j);
    }
  }

  /** Searching for one character finds it, and no earlier copy of it. */
  lemma IndexOfChar(s: string, c: char, from: nat)
    requires from <= |s| && IndexOf(s, [c], from).Some?
    ensures var q := IndexOf(s, [c], from).value;
      q < |s| && s[q] == c && forall k :: from <= k < q ==> s[k] != c
  {
    var q := IndexOf(s, [c], from).value;
    assert s[q..][..1] == [c];
    forall k | from <= k < q ensures s[k] != c {
      assert s[k..][0] == s[k];
    }
  }

  /** The converse: the first copy of the character is the one found. */
  lemma IndexOfCharAt(s: string, c: char, from: nat, q: nat)
    requires from <= q < |s| && s[q] == c
    requires forall k :: from <= k < q ==> s[k] != c
    ensures IndexOf(s, [c], from) == Some(q)
  {
    forall k | from <= k < q ensures !StartsWith(s[k..], [c]) {
      assert s[k..][0] == s[k];
    }
    assert s[q..][..1] == [c];
    IndexOfFirst(s, [c], from, q);
  }

  /** `parts.join(sep)` for a list that may be empty. */
  function JoinAll(parts: seq<string>, sep: string): string {
    if parts == [] then [] else Join(parts, sep)
  }

  /** Text without the separator is a single piece. */
  lemma {:induction false} SplitWithout(s: string, c: char)
    requires Excludes(s, c)
    ensures Split(s, [c]) == [s]
    decreases |s|
  {
    if s != [] {
      assert s[..1] == [s[0]];
      SplitWithout(s[1..], c);
      assert [s[0]] + s[1..] == s;
    }
  }

  /** The first separator ends the first piece. */
  lemma {:induction false} SplitAtFirst(a: string, c: char, b: string)
    requires Excludes(a, c)
    ensures Split(a + [c] + b, [c]) == [a] + Split(b, [c])
    decreases |a|
  {
    var s := a + [c] + b;
    if a == [] {
      assert s == [c] + b;
      assert s[..1] == [c];
      assert s[1..] == b;
    } else {
      assert s[..1] == [a[0]];
      assert s[1..] == a[1..] + [c] + b;
      SplitAtFirst(a[1..], c, b);
      assert [a[0]] + a[1..] == a;
    }
  }

  /** Splitting undoes joining when no piece holds the separator. */
  lemma {:induction false} SplitOfJoin(parts: seq<string>, c: char)
    requires |parts| >= 1
    requires forall i :: 0 <= i < |parts| ==> Excludes(parts[i], c)
    ensures Split(Join(parts, [c]), [c]) == parts
    decreases |parts|
  {
    if |parts| == 1 {
      SplitWithout(parts[0], c);
    } else {
      SplitOfJoin(parts[1..], c);
      SplitAtFirst(parts[0], c, Join(parts[1..], [c]));
      assert [parts[0]] + parts[1..] == parts;
    }
  }

  /** An empty last piece adds one separator at the end. */
  lemma {:induction false} JoinEmptyLast(parts: seq<string>, sep: string)
    requires |parts| >= 1
    ensures Join(parts + [[]], sep) == Join(parts, sep) + sep
    decreases |parts|
  {
    var longer := parts + [[]];
    if |parts| == 1 {
      assert longer[1..] == [[]];
    } else {
      assert longer[1..] == parts[1..] + [[]];
      JoinEmptyLast(parts[1..], sep);
    }
  }

  /** A prefix in which no match starts is copied unchanged. */
  lemma {:induction false} ReplaceAfter(a: string, b: string, pat: string, rep: string, ignoreCase: bool)
    requires pat != []
    requires forall k :: 0 <= k < |a| ==> !MatchesAt((a + b)[k..], pat, ignoreCase)
    ensures Replace(a + b, pat, rep, ignoreCase) == a + Replace(b, pat, rep, ignoreCase)
    decreases |a|
  {
    if a == [] {
      assert a + b == b;
    } else {
      assert (a + b)[0..] == a + b;
      assert (a + b)[1..] == a[1..] + b;
      forall k | 0 <= k < |a| - 1 ensures !MatchesAt((a[1..] + b)[k..], pat, ignoreCase) {
        assert (a[1..] + b)[k..] == (a + b)[k + 1..];
      }
      ReplaceAfter(a[1..], b, pat, rep, ignoreCase);
      assert [a[0]] + (a[1..] + Replace(b, pat, rep, ignoreCase)) == a + Replace(b, pat, rep, ignoreCase);
    }
  }

  /** A match at the front is replaced and the search resumes after it. */
  lemma ReplaceAtFront(pat: string, b: string, rep: string)
    requires pat != []
    ensures Replace(pat + b, pat, rep, false) == rep + Replace(b, pat, rep, false)
  {
    assert (pat + b)[..|pat|] == pat;
    assert (pat + b)[|pat|..] == b;
  }

  /** Deleting the pattern from between its first character and the rest of
      it leaves one whole occurrence behind. */
  lemma DeletionRejoins(c: char, tail: string)
    requires tail != []
    requires forall k :: 0 <= k < |tail| ==> ToLower(tail[k]) != ToLower(c)
    ensures var pat := [c] + tail; Replace([c] + (pat + tail), pat, [], false) == pat
  {
    var pat := [c] + tail;
    var x := pat + tail;
    assert ([c] + x)[1] == c && pat[1] == tail[0];
    NotStartsWith([c] + x, pat, 1);
    ReplaceCopy(c, x, pat, []);
    ReplaceAtFront(pat, tail, []);
    AbsentChar(tail, pat, false, 0);
    ReplaceAbsent(tail, pat, [], false);
    assert Replace([c] + x, pat, [], false) == [c] + ([] + tail);
    assert [] + tail == tail;
  }

  /** A character where no match begins is copied. */
  lemma ReplaceCopy(c: char, t: string, pat: string, rep: string)
    requires pat != [] && !StartsWith([c] + t, pat)
    ensures Replace([c] + t, pat, rep, false) == [c] + Replace(t, pat, rep, false)
  {
    assert ([c] + t)[1..] == t;
  }

  /** No position starts a match, so the text does not contain one. */
  lemma {:induction false} NotContains(s: string, pat: string, ignoreCase: bool)
    requires forall k :: 0 <= k < |s| ==> !MatchesAt(s[k..], pat, ignoreCase)
    ensures !Contains(s, pat, ignoreCase)
    decreases |s|
  {
    if s != [] {
      assert s[0..] == s;
      forall k | 0 <= k < |s| - 1 ensures !MatchesAt(s[1..][k..], pat, ignoreCase) {
        assert s[1..][k..] == s[k + 1..];
      }
      NotContains(s[1..], pat, ignoreCase);
    }
  }

  /** A text none of whose characters equals, up to case, the `j`-th
      character of the pattern does not contain the pattern. */
  lemma AbsentChar(s: string, pat: string, ignoreCase: bool, j: nat)
    requires j < |pat|
    requires forall k :: 0 <= k < |s| ==> ToLower(s[k]) != ToLower(pat[j])
    ensures !Contains(s, pat, ignoreCase)
  {
    forall k | 0 <= k < |s| ensures !MatchesAt(s[k..], pat, ignoreCase) {
      if |s[k..]| >= |pat| {
        var u := s[k..];
        assert u[j] == s[k + j];
        assert Lower(u[..|pat|])[j] == ToLower(u[j]);
        assert Lower(pat)[j] == ToLower(pat[j]);
      }
    }
    NotContains(s, pat, ignoreCase);
  }
}

/** Character classes and string helpers shared by every pass.

    Strings are `seq<char>`. Case mapping is over ASCII letters only, which is
    exactly how a JavaScript regular expression with the `i` flag (and without
    the `u` flag) compares the ASCII patterns used here. `IsSpace` is the set
    of code points that `\s` matches and that `String.prototype.trim` strips. */
module Chars {

  predicate IsSpace(c: char) {
    var n := c as int;
    (0x09 <= n <= 0x0D) || n == 0x20 || n == 0xA0 || n == 0x1680 ||
    (0x2000 <= n <= 0x200A) || n == 0x2028 || n == 0x2029 || n == 0x202F ||
    n == 0x205F || n == 0x3000 || n == 0xFEFF
  }

  /** The characters that `.` refuses to match when the `s` flag is absent. */
  predicate IsLineTerminator(c: char) {
    c == '\n' || c == '\r' || c as int == 0x2028 || c as int == 0x2029
  }

  predicate IsUpper(c: char) { 'A' <= c <= 'Z' }
  predicate IsLower(c: char) { 'a' <= c <= 'z' }
  predicate IsLetter(c: char) { IsUpper(c) || IsLower(c) }
  predicate IsDigit(c: char) { '0' <= c <= '9' }
  predicate IsAlnum(c: char) { IsLetter(c) || IsDigit(c) }

  /** The two characters of the classes `['"]` and `["']`. */
  predicate IsQuote(c: char) { c == '\'' || c == '"' }

  /** `\w`: the characters on the word side of `\b`. */
  predicate IsWordChar(c: char) { IsAlnum(c) || c == '_' }

  function ToLower(c: char): (r: char)
    ensures IsUpper(c) ==> IsLower(r)
    ensures !IsUpper(c) ==> r == c
    ensures !IsUpper(r)
  {
    if IsUpper(c) then (c as int + 32) as char else c
  }

  function ToUpper(c: char): (r: char)
    ensures IsLower(c) ==> IsUpper(r)
    ensures !IsLower(c) ==> r == c
    ensures !IsLower(r)
  {
    if IsLower(c) then (c as int - 32) as char else c
  }

  function Lower(s: string): (r: string)
    ensures |r| == |s|
    ensures forall i :: 0 <= i < |s| ==> r[i] == ToLower(s[i])
  {
    seq(|s|, i requires 0 <= i < |s| => ToLower(s[i]))
  }

  function Upper(s: string): (r: string)
    ensures |r| == |s|
    ensures forall i :: 0 <= i < |s| ==> r[i] == ToUpper(s[i])
  {
    seq(|s|, i requires 0 <= i < |s| => ToUpper(s[i]))
  }

  predicate StartsWith(s: string, p: string) {
    |p| <= |s| && s[..|p|] == p
  }

  /** `s` begins with `p`, comparing ASCII letters without regard to case. */
  predicate StartsWithIgnoreCase(s: string, p: string) {
    |p| <= |s| && Lower(s[..|p|]) == Lower(p)
  }

  predicate NoSpace(s: string) {
    forall i :: 0 <= i < |s| ==> !IsSpace(s[i])
  }

  predicate Excludes(s: string, c: char) {
    forall i :: 0 <= i < |s| ==> s[i] != c
  }

  function TrimStart(s: string): (r: string)
    ensures |r| <= |s| && r == s[|s| - |r|..]
    ensures r == [] || !IsSpace(r[0])
    ensures forall i :: 0 <= i < |s| - |r| ==> IsSpace(s[i])
  {
    if |s| > 0 && IsSpace(s[0]) then TrimStart(s[1..]) else s
  }

  function TrimEnd(s: string): (r: string)
    ensures |r| <= |s| && r == s[..|r|]
    ensures r == [] || !IsSpace(r[|r| - 1])
    ensures forall i :: |r| <= i < |s| ==> IsSpace(s[i])
  {
    if |s| > 0 && IsSpace(s[|s| - 1]) then TrimEnd(s[..|s| - 1]) else s
  }

  /** `String.prototype.trim`. */
  function Trim(s: string): string {
    TrimEnd(TrimStart(s))
  }

  /** A string that `Trim` leaves as it is. */
  predicate Trimmed(s: string) {
    s == [] || (!IsSpace(s[0]) && !IsSpace(s[|s| - 1]))
  }

  lemma TrimIsInner(s: string)
    ensures Trimmed(Trim(s))
    ensures exists i, j :: 0 <= i <= j <= |s| && Trim(s) == s[i..j]
  {
    var t := TrimStart(s);
    var r := TrimEnd(t);
    var i := |s| - |t|;
    assert r == s[i..i + |r|];
    if r != [] {
      assert r[0] == t[0];
    }
  }

  /** The trimmed string is empty exactly when every character is white space. */
  lemma TrimEmptyIff(s: string)
    ensures Trim(s) == [] <==> forall i :: 0 <= i < |s| ==> IsSpace(s[i])
  {
    var t := TrimStart(s);
    if Trim(s) == [] {
      assert t == [];
    } else {
      var r := Trim(s);
      assert r[0] == t[0];
      assert t[0] == s[|s| - |t|];
    }
  }

  /** Removing surrounding white space from a trimmed core gives the core back. */
  lemma {:induction false} TrimAround(pre: string, x: string, post: string)
    requires forall i :: 0 <= i < |pre| ==> IsSpace(pre[i])
    requires forall i :: 0 <= i < |post| ==> IsSpace(post[i])
    requires Trimmed(x)
    ensures Trim(pre + x + post) == x
  {
    var s := pre + x + post;
    if x == [] {
      assert forall i :: 0 <= i < |s| ==> IsSpace(s[i]) by {
        forall i | 0 <= i < |s| ensures IsSpace(s[i]) {
          if i < |pre| { assert s[i] == pre[i]; } else { assert s[i] == post[i - |pre|]; }
        }
      }
      TrimEmptyIff(s);
    } else {
      assert s == pre + (x + post);
      TrimStartAround(pre, x + post);
      TrimEndAround(x, post);
    }
  }

  lemma {:induction false} TrimStartAround(pre: string, rest: string)
    requires forall i :: 0 <= i < |pre| ==> IsSpace(pre[i])
    requires rest == [] || !IsSpace(rest[0])
    ensures TrimStart(pre + rest) == rest
  {
    if pre == [] {
      assert pre + rest == rest;
    } else {
      assert (pre + rest)[1..] == pre[1..] + rest;
      TrimStartAround(pre[1..], rest);
    }
  }

  lemma {:induction false} TrimEndAround(x: string, post: string)
    requires forall i :: 0 <= i < |post| ==> IsSpace(post[i])
    requires x == [] || !IsSpace(x[|x| - 1])
    ensures TrimEnd(x + post) == x
    decreases |post|
  {
    if post == [] {
      assert x + post == x;
    } else {
      var p := post[..|post| - 1];
      assert (x + post)[..|x + post| - 1] == x + p;
      TrimEndAround(x, p);
    }
  }

  /** Leading white space is what `TrimStart` removes first. */
  lemma {:induction false} TrimStartPadded(a: string, y: string)
    requires forall i :: 0 <= i < |a| ==> IsSpace(a[i])
    ensures TrimStart(a + y) == TrimStart(y)
    decreases |a|
  {
    if a == [] {
      assert a + y == y;
    } else {
      assert (a + y)[0] == a[0];
      assert (a + y)[1..] == a[1..] + y;
      TrimStartPadded(a[1..], y);
    }
  }

  /** Trailing white space is what `TrimEnd` removes first. */
  lemma {:induction false} TrimEndPadded(y: string, b: string)
    requires forall i :: 0 <= i < |b| ==> IsSpace(b[i])
    ensures TrimEnd(y + b) == TrimEnd(y)
    decreases |b|
  {
    if b == [] {
      assert y + b == y;
    } else {
      var init := b[..|b| - 1];
      assert (y + b)[|y + b| - 1] == b[|b| - 1];
      assert (y + b)[..|y + b| - 1] == y + init;
      TrimEndPadded(y, init);
    }
  }

  /** Trailing white space makes no difference to `Trim`. */
  lemma {:induction false} TrimBeforeSpace(y: string, b: string)
    requires forall i :: 0 <= i < |b| ==> IsSpace(b[i])
    ensures Trim(y + b) == Trim(y)
    decreases |y|
  {
    if y == [] {
      assert y + b == b;
      TrimStartPadded(b, []);
      assert b + [] == b;
    } else if IsSpace(y[0]) {
      assert (y + b)[0] == y[0];
      assert (y + b)[1..] == y[1..] + b;
      TrimBeforeSpace(y[1..], b);
    } else {
      assert (y + b)[0] == y[0];
      TrimEndPadded(y, b);
    }
  }

  /** White space added on either side of a text leaves its trimmed form as
      it was. */
  lemma TrimPadded(a: string, x: string, b: string)
    requires forall i :: 0 <= i < |a| ==> IsSpace(a[i])
    requires forall i :: 0 <= i < |b| ==> IsSpace(b[i])
    ensures Trim(a + x + b) == Trim(x)
  {
    assert a + x + b == a + (x + b);
    TrimStartPadded(a, x + b);
    TrimBeforeSpace(x, b);
  }

  /** A character is missing from a concatenation exactly when it is missing
      from both halves. */
  lemma ExcludesAppend(x: string, y: string, c: char)
    ensures Excludes(x + y, c) <==> Excludes(x, c) && Excludes(y, c)
  {
    if Excludes(x, c) && Excludes(y, c) {
      forall i | 0 <= i < |x + y| ensures (x + y)[i] != c {
        if i >= |x| { assert (x + y)[i] == y[i - |x|]; }
      }
    }
    if Excludes(x + y, c) {
      forall i | 0 <= i < |x| ensures x[i] != c { assert (x + y)[i] == x[i]; }
      forall i | 0 <= i < |y| ensures y[i] != c { assert (x + y)[|x| + i] == y[i]; }
    }
  }

  lemma TrimOfTrimmed(x: string)
    requires Trimmed(x)
    ensures Trim(x) == x
  {
    TrimAround([], x, []);
    assert [] + x + [] == x;
  }

  lemma StartsWithCons(s: string, c: char, w: string)
    requires s != []
    ensures StartsWith(s, [c] + w) <==> s[0] == c && StartsWith(s[1..], w)
  {
    if s[0] == c && StartsWith(s[1..], w) {
      assert s[..|w| + 1] == [c] + s[1..][..|w|];
    }
  }

  /** One differing position rules a prefix out. */
  lemma NotStartsWith(s: string, p: string, i: nat)
    requires i < |p| && i < |s| && s[i] != p[i]
    ensures !StartsWith(s, p)
  {
    if |p| <= |s| {
      assert s[..|p|][i] == s[i];
    }
  }

  /** A case-insensitive match of `p` is one of every prefix of `p`. */
  lemma StartsWithIgnoreCasePrefix(s: string, p: string, q: string)
    requires StartsWithIgnoreCase(s, p) && StartsWith(p, q)
    ensures StartsWithIgnoreCase(s, q)
  {
    forall i | 0 <= i < |q| ensures Lower(s[..|q|])[i] == Lower(q)[i] {
      assert Lower(s[..|p|])[i] == Lower(p)[i];
      assert q[i] == p[i];
    }
  }
}

/** `closeSelfClosingTags` (index.ts:34-45): every opening tag of a void
    element gets the `/>` that JSX requires. One case-insensitive pass
    matches `<`, a name of the table, a lookahead for white space, `>` or
    `/`, and everything up to the next `>`; a second pass collapses `//>`
    into `/>`. */
module SelfClosing {
  import opened Chars
  import opened Wrappers
  import opened Replacing
  import Tags

  /** The characters the lookahead `(?=[\s>/])` accepts after the name. */
  predicate IsBoundary(c: char) {
    IsSpace(c) || c == '>' || c == '/'
  }

  /** The first name of `names` that the text starts with, ignoring case,
      followed by a boundary character: the alternation tries the names in
      order and backtracks into the next one when the lookahead fails. */
  function TableMatch(s: string, names: seq<string>): (r: Option<string>)
    ensures r.Some? ==> r.value in names && StartsWithIgnoreCase(s, r.value)
    ensures r.Some? ==> |s| > |r.value| && IsBoundary(s[|r.value|])
    ensures r.None? ==> forall n :: n in names && StartsWithIgnoreCase(s, n) && |s| > |n| ==> !IsBoundary(s[|n|])
    decreases |names|
  {
    if names == [] then None
    else
      var n := names[0];
      if StartsWithIgnoreCase(s, n) && |s| > |n| && IsBoundary(s[|n|]) then Some(n)
      else TableMatch(s, names[1..])
  }

  /** The position of the `>` ending a self-closing tag at the front of the
      text: the attribute group runs to the first `>` after the name, which
      leaves the optional white space and slash of the pattern empty, so the
      match ends at that `>`. The lemmas below hold for any table `names`
      of lower-case words none of which begins another; the pass itself
      uses the table of void elements. */
  function CloseTagAt(s: string, names: seq<string>): (r: Option<nat>)
    ensures r.Some? ==> 0 < r.value < |s| && s[r.value] == '>' && s[0] == '<'
    ensures r.Some? ==> TableMatch(s[1..], names).Some?
    ensures r.Some? ==> forall k :: 1 + |TableMatch(s[1..], names).value| <= k < r.value ==> s[k] != '>'
  {
    if s == [] || s[0] != '<' then None
    else match TableMatch(s[1..], names)
      case None => None
      case Some(n) =>
        match IndexOf(s, ">", 1 + |n|)
        case None => None
        case Some(q) =>
          IndexOfChar(s, '>', 1 + |n|);
          if q < |s| then Some(q) else None
  }

  /** The first pass: each matched tag is written again with `/>` in place of
      its `>`, keeping the name as spelled and everything before the `>`. */
  function CloseTags(s: string, names: seq<string>): string
    decreases |s|
  {
    if s == [] then []
    else match CloseTagAt(s, names)
      case Some(q) => s[..q] + "/>" + CloseTags(s[q + 1..], names)
      case None => [s[0]] + CloseTags(s[1..], names)
  }

  /** The second pass. */
  function Collapse(s: string): string {
    Replace(s, "//>", "/>", false)
  }

  /** `closeSelfClosingTags`. */
  function CloseSelfClosingTags(html: string): string {
    Collapse(CloseTags(html, Tags.SelfClosingTags))
  }

  /** A case-insensitive match of a lower-case word fixes every letter up to
      case. */
  lemma MatchedLetters(s: string, n: string)
    requires Tags.LowerWord(n) && StartsWithIgnoreCase(s, n)
    ensures forall k :: 0 <= k < |n| ==> ToLower(s[k]) == n[k]
  {
    forall k | 0 <= k < |n| ensures ToLower(s[k]) == n[k] {
      assert Lower(s[..|n|])[k] == ToLower(s[k]);
      assert Lower(n)[k] == ToLower(n[k]);
    }
  }

  /** Lower-case words, none of which begins another. */
  predicate UniqueNames(names: seq<string>) {
    (forall n :: n in names ==> Tags.LowerWord(n)) &&
    (forall m, n :: m in names && n in names && m != n ==> !StartsWith(n, m))
  }

  lemma VoidTableUnique()
    ensures UniqueNames(Tags.SelfClosingTags)
  {
    Tags.SelfClosingLowerCase();
    Tags.SelfClosingNoPrefix();
  }

  /** Because no name of the table begins another, the alternation can match
      only one name at a given place. */
  lemma TableMatchUnique(s: string, names: seq<string>, n: string)
    requires UniqueNames(names)
    requires n in names && StartsWithIgnoreCase(s, n) && |s| > |n| && IsBoundary(s[|n|])
    ensures TableMatch(s, names) == Some(n)
  {
    var m := TableMatch(s, names).value;
    MatchedLetters(s, m);
    MatchedLetters(s, n);
  }

  lemma CloseTagAtOf(s: string, names: seq<string>, n: string, q: nat)
    requires |s| > |n| + 1 && s[0] == '<'
    requires TableMatch(s[1..], names) == Some(n)
    requires IndexOf(s, ">", 1 + |n|) == Some(q)
    ensures CloseTagAt(s, names) == Some(q)
  {
  }

  /** The tag at the front, located by the table name it starts with and
      the first `>` after that name. */
  lemma CloseTagAtIs(s: string, names: seq<string>, n: string, q: nat)
    requires UniqueNames(names)
    requires |s| > |n| + 1 && s[0] == '<' && n in names
    requires StartsWithIgnoreCase(s[1..], n) && IsBoundary(s[|n| + 1])
    requires 1 + |n| <= q < |s| && s[q] == '>'
    requires forall k :: 1 + |n| <= k < q ==> s[k] != '>'
    ensures CloseTagAt(s, names) == Some(q)
  {
    assert s[1..][|n|] == s[|n| + 1];
    TableMatchUnique(s[1..], names, n);
    IndexOfCharAt(s, '>', 1 + |n|, q);
    CloseTagAtOf(s, names, n, q);
  }

  /** Text in which no `<` is followed by a table name and a boundary
      character passes the first pass unchanged. */
  lemma {:induction false} CloseTagsNoMatch(s: string, names: seq<string>)
    requires forall k :: 0 <= k < |s| ==> CloseTagAt(s[k..], names).None?
    ensures CloseTags(s, names) == s
    decreases |s|
  {
    if s != [] {
      assert s[0..] == s;
      forall k | 0 <= k < |s| - 1 ensures CloseTagAt(s[1..][k..], names).None? {
        assert s[1..][k..] == s[k + 1..];
      }
      CloseTagsNoMatch(s[1..], names);
      assert [s[0]] + s[1..] == s;
    }
  }

  /** A name that merely begins with a table name (`<inputs>`, `<brand>`,
      `<colgroup>`) is not a void element and is left alone. */
  lemma {:induction false} PrefixSafe(s: string, names: seq<string>)
    requires s != [] && s[0] == '<'
    requires forall n :: n in names && StartsWithIgnoreCase(s[1..], n) && |s| > |n| + 1 ==> IsLetter(s[|n| + 1])
    ensures CloseTagAt(s, names).None?
  {
    NoBoundaryNoMatch(s, names);
  }

  /** `<colgroup>` begins with the void name `col` but is not matched. */
  lemma ColgroupNotMatched(s: string)
    requires s == "<colgroup>"
    ensures CloseTagAt(s, Tags.SelfClosingTags).None?
  {
    forall n | n in Tags.SelfClosingTags && StartsWithIgnoreCase(s[1..], n) && |s| > |n| + 1
      ensures IsLetter(s[|n| + 1])
    {
      assert Lower(s[1..][..|n|])[0] == ToLower(s[1]) == 'c';
      assert Lower(n)[0] == ToLower(n[0]);
      assert n == "col";
    }
    PrefixSafe(s, Tags.SelfClosingTags);
  }

  lemma {:induction false} NoBoundaryNoMatch(s: string, names: seq<string>)
    requires s != []
    requires forall n :: n in names && StartsWithIgnoreCase(s[1..], n) && |s| > |n| + 1 ==> IsLetter(s[|n| + 1])
    ensures TableMatch(s[1..], names).None?
    decreases |names|
  {
    if names != [] {
      var n := names[0];
      assert n in names;
      if StartsWithIgnoreCase(s[1..], n) && |s| > |n| + 1 {
        assert s[1..][|n|] == s[|n| + 1];
      }
      NoBoundaryNoMatch(s, names[1..]);
    }
  }

  /** What follows a void name inside its tag: no `>`, and a first character
      the lookahead accepts (an empty remainder is followed by `>` or `/`). */
  predicate IsTagTail(attrs: string) {
    Excludes(attrs, '>') && (attrs == [] || IsBoundary(attrs[0]))
  }

  /** The first pass on one tag of the table at the front. */
  lemma CloseTagsOnTag(w: string, attrs: string, rest: string, names: seq<string>)
    requires UniqueNames(names) && Lower(w) in names && IsTagTail(attrs)
    ensures CloseTags("<" + w + attrs + ">" + rest, names) == "<" + w + attrs + "/>" + CloseTags(rest, names)
  {
    var s := "<" + w + attrs + ">" + rest;
    var n := Lower(w);
    var q := 1 + |w| + |attrs|;
    assert s[1..][..|n|] == w;
    assert s[q] == '>';
    assert s[|n| + 1] == (if attrs == [] then '>' else attrs[0]);
    forall k | 1 + |n| <= k < q ensures s[k] != '>' {
      assert s[k] == attrs[k - 1 - |w|];
    }
    CloseTagAtIs(s, names, n, q);
    assert s[..q] == "<" + w + attrs;
    assert s[q + 1..] == rest;
  }

  /** No `//>` starts inside `x` when `x` ends in `>` and has no other `>`
      except possibly the last, and the character three before the end is
      not `/`. */
  lemma NoCollapseIn(x: string, b: string)
    requires |x| >= 3 && x[|x| - 1] == '>' && x[|x| - 2] != '>' && x[|x| - 3] != '/'
    requires forall k :: 0 <= k < |x| - 1 ==> x[k] != '>'
    ensures forall k :: 0 <= k < |x| ==> !MatchesAt((x + b)[k..], "//>", false)
  {
    forall k | 0 <= k < |x| ensures !MatchesAt((x + b)[k..], "//>", false) {
      var u := (x + b)[k..];
      if k + 2 < |x| - 1 {
        assert u[2] == x[k + 2];
      } else if k + 2 == |x| - 1 {
        assert u[0] == x[k];
      } else if |u| >= 3 {
        assert u[0] == x[k];
        assert x[k] == '>' || u[1] == '>' || k == |x| - 2;
        if k == |x| - 2 { assert u[1] == '>'; }
      }
    }
  }

  lemma OpenTagClosed(w: string, attrs: string, rest: string, names: seq<string>)
    requires UniqueNames(names) && Lower(w) in names && IsTagTail(attrs)
    requires attrs == [] || attrs[|attrs| - 1] != '/'
    ensures Collapse(CloseTags("<" + w + attrs + ">" + rest, names)) == "<" + w + attrs + "/>" + Collapse(CloseTags(rest, names))
  {
    CloseTagsOnTag(w, attrs, rest, names);
    TagNameLetters(w, names);
    OpenedNoAngle(w, attrs);
    var o := "<" + w + attrs;
    var x := o + "/>";
    assert o[|o| - 1] != '/' by {
      if attrs == [] { assert o[|o| - 1] == w[|w| - 1]; } else { assert o[|o| - 1] == attrs[|attrs| - 1]; }
    }
    forall k | 0 <= k < |x| - 1 ensures x[k] != '>' {
      if k < |o| { assert x[k] == o[k]; }
    }
    assert x[|x| - 3] == o[|o| - 1];
    NoCollapseIn(x, CloseTags(rest, names));
    ReplaceAfter(x, CloseTags(rest, names), "//>", "/>", false);
  }

  /** A name found in the table is made of letters. */
  lemma TagNameLetters(w: string, names: seq<string>)
    requires UniqueNames(names) && Lower(w) in names
    ensures w != [] && forall k :: 0 <= k < |w| ==> IsLetter(w[k])
  {
    assert Tags.LowerWord(Lower(w));
    forall k | 0 <= k < |w| ensures IsLetter(w[k]) {
      assert IsLower(Lower(w)[k]);
    }
  }

  /** The opening part of a tag holds no `>`. */
  lemma OpenedNoAngle(w: string, attrs: string)
    requires forall k :: 0 <= k < |w| ==> IsLetter(w[k])
    requires Excludes(attrs, '>')
    ensures Excludes("<" + w + attrs, '>')
  {
    var x := "<" + w + attrs;
    forall k | 0 <= k < |x| ensures x[k] != '>' {
      if 0 < k <= |w| { assert x[k] == w[k - 1]; }
      else if k > |w| { assert x[k] == attrs[k - 1 - |w|]; }
    }
  }

  /** A void tag written without the slash is closed: `<br>` gives `<br/>`,
      `<img src="a.png">` gives `<img src="a.png"/>`; the name keeps its
      spelling. */
  lemma OpenVoidTagClosed(w: string, attrs: string, rest: string)
    requires Lower(w) in Tags.SelfClosingTags && IsTagTail(attrs)
    requires attrs == [] || attrs[|attrs| - 1] != '/'
    ensures CloseSelfClosingTags("<" + w + attrs + ">" + rest) == "<" + w + attrs + "/>" + CloseSelfClosingTags(rest)
  {
    VoidTableUnique();
    OpenTagClosed(w, attrs, rest, Tags.SelfClosingTags);
  }

  /** The first pass doubles the slash of a tag already closed. */
  lemma ClosedTagFirstPass(w: string, attrs: string, rest: string, names: seq<string>)
    requires UniqueNames(names) && Lower(w) in names && IsTagTail(attrs + "/")
    ensures CloseTags("<" + w + attrs + "/>" + rest, names) == "<" + w + attrs + ("//>" + CloseTags(rest, names))
  {
    var x := "<" + w + attrs;
    var s := x + "/>" + rest;
    var n := Lower(w);
    var q := |x| + 1;
    forall k | 1 + |n| <= k < q ensures s[k] != '>' {
      if k < |x| { assert s[k] == (attrs + "/")[k - 1 - |w|]; } else { assert s[k] == '/'; }
    }
    assert s[1..][..|n|] == w;
    assert s[|n| + 1] == (attrs + "/")[0];
    CloseTagAtIs(s, names, n, q);
    assert s[..q] == x + "/" && s[q + 1..] == rest;
    var b := CloseTags(rest, names);
    assert x + "/" + "/>" + b == x + ("//>" + b);
  }

  lemma ClosedTagUnchanged(w: string, attrs: string, rest: string, names: seq<string>)
    requires UniqueNames(names) && Lower(w) in names && IsTagTail(attrs + "/")
    ensures Collapse(CloseTags("<" + w + attrs + "/>" + rest, names)) == "<" + w + attrs + ("/>" + Collapse(CloseTags(rest, names)))
  {
    ClosedTagFirstPass(w, attrs, rest, names);
    TagNameLetters(w, names);
    assert forall k :: 0 <= k < |attrs| ==> attrs[k] == (attrs + "/")[k];
    OpenedNoAngle(w, attrs);
    CollapseFirst("<" + w + attrs, CloseTags(rest, names));
  }

  /** A void tag that already ends in `/>` comes out as it went in: the first
      pass doubles the slash and the second collapses it again. */
  lemma ClosedVoidTagUnchanged(w: string, attrs: string, rest: string)
    requires Lower(w) in Tags.SelfClosingTags && IsTagTail(attrs + "/")
    ensures CloseSelfClosingTags("<" + w + attrs + "/>" + rest) == "<" + w + attrs + ("/>" + CloseSelfClosingTags(rest))
  {
    VoidTableUnique();
    ClosedTagUnchanged(w, attrs, rest, Tags.SelfClosingTags);
  }

  /** The first `//>` after text without `>` is the first match. */
  lemma CollapseFirst(x: string, b: string)
    requires Excludes(x, '>')
    ensures Collapse(x + ("//>" + b)) == x + ("/>" + Collapse(b))
  {
    var s := x + ("//>" + b);
    forall k | 0 <= k < |x| ensures !MatchesAt(s[k..], "//>", false) {
      var u := s[k..];
      if k + 2 < |x| {
        assert u[2] == x[k + 2];
      } else {
        assert u[2] == '/';
      }
    }
    ReplaceAfter(x, "//>" + b, "//>", "/>", false);
    ReplaceAtFront("//>", b, "/>");
  }

  /** The first letters of the void element names. */
  predicate IsVoidInitial(c: char) {
    var l := ToLower(c);
    l == 'i' || l == 'b' || l == 'h' || l == 'm' || l == 'l' || l == 'c' || l == 'a'
  }

  lemma VoidInitials()
    ensures forall n :: n in Tags.SelfClosingTags ==> n != [] && IsVoidInitial(n[0])
  {
  }

  lemma {:induction false} NoInitialNoMatch(t: string, names: seq<string>)
    requires t != [] && forall n :: n in names ==> n != [] && ToLower(n[0]) != ToLower(t[0])
    ensures TableMatch(t, names).None?
    decreases |names|
  {
    if names != [] {
      var n := names[0];
      assert n in names;
      assert forall m :: m in names[1..] ==> m in names;
      NoInitialNoMatch(t, names[1..]);
    }
  }

  /** When no `<` is followed by a letter that starts a void element name,
      the first pass changes nothing. */
  lemma CloseTagsPlain(s: string)
    requires forall k :: 0 <= k < |s| - 1 && s[k] == '<' ==> !IsVoidInitial(s[k + 1])
    ensures CloseTags(s, Tags.SelfClosingTags) == s
  {
    forall k | 0 <= k < |s| ensures CloseTagAt(s[k..], Tags.SelfClosingTags).None? {
      NoVoidTagAt(s, k);
    }
    CloseTagsNoMatch(s, Tags.SelfClosingTags);
  }

  lemma NoVoidTagAt(s: string, k: nat)
    requires k < |s| && (s[k] == '<' && k + 1 < |s| ==> !IsVoidInitial(s[k + 1]))
    ensures CloseTagAt(s[k..], Tags.SelfClosingTags).None?
  {
    var t := s[k..];
    assert t[0] == s[k];
    if s[k] == '<' && k + 1 < |s| {
      VoidInitials();
      var u := t[1..];
      assert u[0] == s[k + 1];
      assert ToLower(ToLower(s[k + 1])) == ToLower(s[k + 1]);
      NoInitialNoMatch(u, Tags.SelfClosingTags);
    }
  }
}

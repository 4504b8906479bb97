/** The two fixed tag tables and the small checks built on them
    (index.ts:1-2, 59-82). */
module Tags {
  import opened Chars
  import opened Wrappers

  /** Elements that never take a separate closing tag. */
  const SelfClosingTags: seq<string> := ["input", "img", "br", "hr", "meta", "link", "col", "area", "base"]

  /** Elements that must be closed explicitly. */
  const TagsRequiringClosing: set<string> :=
    {"div", "span", "p", "h1", "h2", "h3", "h4", "h5", "h6", "ul", "ol", "li", "table",
     "tr", "td", "th", "form", "button", "textarea", "select", "option", "a"}

  /** `isTagClosed`. */
  predicate IsTagClosed(tag: string) {
    tag !in SelfClosingTags && tag in TagsRequiringClosing
  }

  predicate LowerWord(n: string) {
    n != [] && forall k :: 0 <= k < |n| ==> IsLower(n[k])
  }

  /** The self-closing names are written in lower case. */
  lemma SelfClosingLowerCase()
    ensures forall n :: n in SelfClosingTags ==> LowerWord(n)
  {
  }

  /** No self-closing name begins another one: their first two letters
      already differ. */
  lemma SelfClosingNoPrefix()
    ensures forall m, n :: m in SelfClosingTags && n in SelfClosingTags && m != n ==> !StartsWith(n, m)
  {
    var t := SelfClosingTags;
    assert forall i :: 0 <= i < |t| ==> |t[i]| >= 2;
    var keys := [['i', 'n'], ['i', 'm'], ['b', 'r'], ['h', 'r'], ['m', 'e'], ['l', 'i'], ['c', 'o'], ['a', 'r'], ['b', 'a']];
    assert forall i :: 0 <= i < |t| ==> t[i][..2] == keys[i];
    assert forall i, j :: 0 <= i < |t| && 0 <= j < |t| && i != j ==> keys[i] != keys[j];
  }

  /** No name sits in both tables. */
  lemma TablesDisjoint()
    ensures forall t :: t in TagsRequiringClosing ==> t !in SelfClosingTags
  {
  }

  /** Because the tables are disjoint, the self-closing test in `IsTagClosed`
      never decides anything: a name is closed-required exactly when it is in
      the second table. */
  lemma IsTagClosedIff(tag: string)
    ensures IsTagClosed(tag) <==> tag in TagsRequiringClosing
  {
    TablesDisjoint();
  }

  function NotClosedMessage(tag: string): string {
    "Tag <" + tag + "> is not closed."
  }

  /** `validateTag`: throws unless the name must be closed explicitly. */
  function ValidateTag(tag: string): (r: Outcome<string>)
    ensures r.Pass? <==> tag in TagsRequiringClosing
    ensures r.Fail? ==> r.error == NotClosedMessage(tag)
  {
    IsTagClosedIff(tag);
    if !IsTagClosed(tag) then Fail(NotClosedMessage(tag)) else Pass
  }

  /** `validateInput`: throws when nothing but white space is given. */
  function ValidateInput(html: string): (r: Outcome<string>)
    ensures r.Fail? <==> forall i :: 0 <= i < |html| ==> IsSpace(html[i])
    ensures r.Fail? ==> r.error == "Input must be valid a string."
  {
    TrimEmptyIff(html);
    if Trim(html) == [] || html == [] then Fail("Input must be valid a string.") else Pass
  }

  /** The characters that end the name group of `<([^\s>\/]+)`. */
  predicate IsNameStop(c: char) {
    IsSpace(c) || c == '>' || c == '/'
  }

  /** End of the run of name characters that starts at `from`. */
  function NameEnd(s: string, from: nat): (r: nat)
    requires from <= |s|
    ensures from <= r <= |s|
    ensures forall k :: from <= k < r ==> !IsNameStop(s[k])
    ensures r == |s| || IsNameStop(s[r])
    decreases |s| - from
  {
    if from == |s| || IsNameStop(s[from]) then from else NameEnd(s, from + 1)
  }

  /** The name that `<([^\s>\/]+)` captures when matched at the start of `s`. */
  function OpeningNameAt(s: string): (r: Option<string>)
    ensures r.Some? ==> |s| >= 2 && s[0] == '<' && StartsWith(s[1..], r.value)
    ensures r.Some? ==> r.value != [] && forall k :: 0 <= k < |r.value| ==> !IsNameStop(r.value[k])
    ensures r.Some? ==> 1 + |r.value| == |s| || IsNameStop(s[1 + |r.value|])
    ensures r.None? ==> |s| < 2 || s[0] != '<' || IsNameStop(s[1])
  {
    if |s| >= 2 && s[0] == '<' && !IsNameStop(s[1]) then Some(s[1..NameEnd(s, 1)]) else None
  }

  /** Every name the `exec` loop of `validateTags` visits, in order. */
  function OpeningNames(s: string): (names: seq<string>)
    ensures forall k :: 0 <= k < |names| ==> names[k] != [] && '/' !in names[k] && '>' !in names[k]
    decreases |s|
  {
    if |s| == 0 then []
    else match OpeningNameAt(s)
      case Some(n) => [n] + OpeningNames(s[1 + |n|..])
      case None => OpeningNames(s[1..])
  }

  lemma OpeningNamesStep(s: string)
    requires s != []
    ensures OpeningNameAt(s).Some? ==>
      OpeningNames(s) == [OpeningNameAt(s).value] + OpeningNames(s[1 + |OpeningNameAt(s).value|..])
    ensures OpeningNameAt(s).None? ==> OpeningNames(s) == OpeningNames(s[1..])
  {
  }

  /** `validateTags`: the first visited name (lower-cased) that is not
      closed-required makes it throw; otherwise it returns normally. The
      `exec` loop visits the matches of the expression from left to right,
      whose captured names are `OpeningNames(html)`. */
  method ValidateTags(html: string) returns (r: Outcome<string>)
    ensures var names := OpeningNames(html);
      r.Pass? <==> forall k :: 0 <= k < |names| ==> ValidateTag(Lower(names[k])).Pass?
    ensures var names := OpeningNames(html);
      r.Fail? ==> exists k :: (0 <= k < |names| && r == ValidateTag(Lower(names[k])) &&
                               forall m :: 0 <= m < k ==> ValidateTag(Lower(names[m])).Pass?)
  {
    var names := OpeningNames(html);
    for k := 0 to |names|
      invariant forall m :: 0 <= m < k ==> ValidateTag(Lower(names[m])).Pass?
    {
      var outcome := ValidateTag(Lower(names[k]));
      if outcome.Fail? {
        assert names == OpeningNames(html) && !ValidateTag(Lower(names[k])).Pass?;
        assert !(forall m :: 0 <= m < |names| ==> ValidateTag(Lower(names[m])).Pass?);
        return outcome;
      }
    }
    return Pass;
  }
}

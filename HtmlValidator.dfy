/** `validateHtml` (index.ts:123-162): one left-to-right scan over the tag
    tokens of `<\/?([a-zA-Z][a-zA-Z0-9]*)\b[^>]*>`, keeping a stack of the
    names still open. The model splits it into the token scanner (`Tokens`,
    what the `exec` loop visits), the stack machine over tokens (`Scan`), and
    the method `ValidateHtml` that runs both in one loop as the source does. */
module HtmlValidator {
  import opened Chars
  import opened Wrappers
  import opened Replacing
  import Tags
  import opened Nesting

  const ValidMessage := "HTML is valid."

  /** One match of the tag pattern: the whole match, the captured name (as
      written) and whether it began with `</`. */
  datatype Token = Token(text: string, name: string, closing: bool)

  datatype HtmlError =
    | UnexpectedClosingTag(tag: string)
    | MismatchedTags(expected: string, found: string)
    | UnclosedTags(names: seq<string>)

  function JoinAngled(names: seq<string>): string
    decreases |names|
  {
    if names == [] then []
    else if |names| == 1 then "<" + names[0] + ">"
    else "<" + names[0] + ">, " + JoinAngled(names[1..])
  }

  /** The text of the thrown error. */
  function Message(e: HtmlError): string {
    match e
    case UnexpectedClosingTag(tag) => "Unexpected closing tag: " + tag
    case MismatchedTags(expected, found) =>
      "Mismatched tags: expected </" + expected + "> but found </" + found + ">"
    case UnclosedTags(names) => "Unclosed tags: " + JoinAngled(names)
  }

  /** End of the run of ASCII letters and digits that starts at `from`. */
  function AlnumEnd(s: string, from: nat): (r: nat)
    requires from <= |s|
    ensures from <= r <= |s|
    ensures forall k :: from <= k < r ==> IsAlnum(s[k])
    ensures r == |s| || !IsAlnum(s[r])
    decreases |s| - from
  {
    if from == |s| || !IsAlnum(s[from]) then from else AlnumEnd(s, from + 1)
  }

  /** `[a-zA-Z][a-zA-Z0-9]*`. */
  predicate IsTagName(name: string) {
    name != [] && IsLetter(name[0]) && forall k :: 0 <= k < |name| ==> IsAlnum(name[k])
  }

  /** A letter followed by a run of letters and digits is a tag name. */
  lemma NameRun(s: string, start: nat, p: nat)
    requires start < p <= |s| && IsLetter(s[start])
    requires forall k :: start + 1 <= k < p ==> IsAlnum(s[k])
    ensures IsTagName(s[start..p])
  {
    forall k | 0 <= k < p - start ensures IsAlnum(s[start..p][k]) {
      assert s[start..p][k] == s[start + k];
    }
  }

  /** The tag pattern anchored at the start of `s`. The name runs over every
      letter and digit that follows; `\b` then fails only on `_`, and
      `[^>]*>` reaches the first `>` after the name. */
  function TokenAt(s: string): (r: Option<Token>)
    ensures r.Some? ==> 3 <= |r.value.text| <= |s| && StartsWith(s, r.value.text)
    ensures r.Some? ==> r.value.text[|r.value.text| - 1] == '>' && r.value.name != []
    ensures r.Some? ==> s[0] == '<' && (r.value.closing <==> s[1] == '/')
    ensures r.Some? ==>
      var start := if r.value.closing then 2 else 1;
      var p := start + |r.value.name|;
      p < |r.value.text| && r.value.name == s[start..p] && IsTagName(r.value.name) &&
      !IsAlnum(s[p]) && s[p] != '_' &&
      forall k :: p <= k < |r.value.text| - 1 ==> s[k] != '>'
  {
    if |s| < 2 || s[0] != '<' then None
    else
      var start := if s[1] == '/' then 2 else 1;
      if start >= |s| || !IsLetter(s[start]) then None
      else
        var p := AlnumEnd(s, start + 1);
        if p < |s| && s[p] == '_' then None
        else match IndexOf(s, ">", p)
          case None => None
          case Some(q) =>
            IndexOfChar(s, '>', p);
            NameRun(s, start, p);
            Some(Token(s[..q + 1], s[start..p], start == 2))
  }

  /** The tokens the `exec` loop visits, in order. */
  function Tokens(s: string): seq<Token>
    decreases |s|
  {
    if |s| == 0 then []
    else match TokenAt(s)
      case Some(t) => [t] + Tokens(s[|t.text|..])
      case None => Tokens(s[1..])
  }

  /** Tokens that end in `/>` or name a self-closing element have no effect. */
  predicate Skipped(t: Token) {
    (|t.text| >= 2 && t.text[|t.text| - 2..] == "/>") || Lower(t.name) in Tags.SelfClosingTags
  }

  /** What one token does to the stack of open names. */
  function Step(t: Token, stack: seq<string>): Result<seq<string>, HtmlError> {
    var name := Lower(t.name);
    if Skipped(t) then Ok(stack)
    else if t.closing then
      if stack == [] then Err(UnexpectedClosingTag(t.text))
      else if stack[|stack| - 1] != name then Err(MismatchedTags(stack[|stack| - 1], name))
      else Ok(stack[..|stack| - 1])
    else Ok(stack + [name])
  }

  /** The stack machine over the tokens, stopping at the first error; on
      success it gives the names still open, first opened first. */
  function Scan(toks: seq<Token>, stack: seq<string>): Result<seq<string>, HtmlError>
    decreases |toks|
  {
    if toks == [] then Ok(stack)
    else match Step(toks[0], stack)
      case Err(e) => Err(e)
      case Ok(st) => Scan(toks[1..], st)
  }

  /** What `validateHtml` returns or throws. */
  function Validation(html: string): Result<string, HtmlError> {
    if Trim(html) == [] then Ok(ValidMessage)
    else match Scan(Tokens(html), [])
      case Err(e) => Err(e)
      case Ok(stack) => if stack == [] then Ok(ValidMessage) else Err(UnclosedTags(stack))
  }

  lemma TokensStep(s: string)
    requires s != []
    ensures TokenAt(s).Some? ==> Tokens(s) == [TokenAt(s).value] + Tokens(s[|TokenAt(s).value.text|..])
    ensures TokenAt(s).None? ==> Tokens(s) == Tokens(s[1..])
  {
  }

  lemma ScanStep(t: Token, rest: seq<Token>, stack: seq<string>)
    ensures Scan([t] + rest, stack) ==
      if Skipped(t) then Scan(rest, stack)
      else if t.closing then
        if stack == [] then Err(UnexpectedClosingTag(t.text))
        else if stack[|stack| - 1] != Lower(t.name) then Err(MismatchedTags(stack[|stack| - 1], Lower(t.name)))
        else Scan(rest, stack[..|stack| - 1])
      else Scan(rest, stack + [Lower(t.name)])
  {
    assert ([t] + rest)[0] == t && ([t] + rest)[1..] == rest;
  }

  /** `validateHtml`, with the array `tagStack` as a sequence. The `exec`
      loop visits the matches of the tag expression from left to right,
      which are `Tokens(html)`. */
  method ValidateHtml(html: string) returns (r: Result<string, HtmlError>)
    ensures r == Validation(html)
  {
    if Trim(html) == [] {
      return Ok(ValidMessage);
    }
    var matches := Tokens(html);
    var tagStack: seq<string> := [];
    var k := 0;
    while k < |matches|
      invariant 0 <= k <= |matches|
      invariant Scan(matches, []) == Scan(matches[k..], tagStack)
    {
      var t := matches[k];
      ScanFrom(matches, k, tagStack);
      k := k + 1;
      var next := VisitTag(t, tagStack);
      match next
      case Err(e) =>
        return Err(e);
      case Ok(stack) =>
        tagStack := stack;
    }
    assert matches[k..] == [];
    if |tagStack| > 0 {
      return Err(UnclosedTags(tagStack));
    }
    return Ok(ValidMessage);
  }

  /** The body of the loop for one match: skip it, pop a matching closing
      tag, push an opening one, or fail. */
  method VisitTag(t: Token, tagStack: seq<string>) returns (r: Result<seq<string>, HtmlError>)
    ensures r == Step(t, tagStack)
  {
    var tagName := Lower(t.name);
    if Skipped(t) {
      return Ok(tagStack);
    }
    if t.closing {
      if |tagStack| == 0 {
        return Err(UnexpectedClosingTag(t.text));
      }
      var lastOpenTag := tagStack[|tagStack| - 1];
      if lastOpenTag != tagName {
        return Err(MismatchedTags(lastOpenTag, tagName));
      }
      return Ok(tagStack[..|tagStack| - 1]);
    }
    return Ok(tagStack + [tagName]);
  }

  lemma ScanFrom(toks: seq<Token>, k: nat, stack: seq<string>)
    requires k < |toks|
    ensures Scan(toks[k..], stack) ==
      match Step(toks[k], stack)
      case Err(e) => Err(e)
      case Ok(st) => Scan(toks[k + 1..], st)
  {
    assert toks[k..][1..] == toks[k + 1..];
  }

  /** Fail-fast composition: the scan of a concatenation is the scan of the
      first part continued from the stack it leaves, or its first error. */
  lemma {:induction false} ScanAppend(a: seq<Token>, b: seq<Token>, stack: seq<string>)
    ensures Scan(a + b, stack) ==
      match Scan(a, stack)
      case Err(e) => Err(e)
      case Ok(st) => Scan(b, st)
    decreases |a|
  {
    if a == [] {
      assert a + b == b;
    } else {
      assert (a + b)[0] == a[0];
      assert (a + b)[1..] == a[1..] + b;
      var t := a[0];
      var name := Lower(t.name);
      if Skipped(t) {
        ScanAppend(a[1..], b, stack);
      } else if t.closing {
        if stack != [] && stack[|stack| - 1] == name {
          ScanAppend(a[1..], b, stack[..|stack| - 1]);
        }
      } else {
        ScanAppend(a[1..], b, stack + [name]);
      }
    }
  }

  /** The open and close events the tokens stand for, with lower-cased names;
      skipped tokens contribute nothing. */
  function EventsOf(toks: seq<Token>): (evs: seq<Event>)
    ensures |evs| <= |toks|
    decreases |toks|
  {
    if toks == [] then []
    else
      var t := toks[0];
      if Skipped(t) then EventsOf(toks[1..])
      else [if t.closing then Close(Lower(t.name)) else Open(Lower(t.name))] + EventsOf(toks[1..])
  }

  /** The token scan succeeds exactly when the stack machine over the events
      does, and leaves the same stack. */
  lemma {:induction false} ScanIsRun(toks: seq<Token>, stack: seq<string>)
    ensures Scan(toks, stack).Ok? <==> Run(EventsOf(toks), stack).Some?
    ensures Scan(toks, stack).Ok? ==> Scan(toks, stack).value == Run(EventsOf(toks), stack).value
    decreases |toks|
  {
    if toks != [] {
      var t := toks[0];
      var name := Lower(t.name);
      var rest := toks[1..];
      if Skipped(t) {
        ScanIsRun(rest, stack);
      } else {
        var e := if t.closing then Close(name) else Open(name);
        RunStep(e, EventsOf(rest), stack);
        if !t.closing {
          ScanIsRun(rest, stack + [name]);
        } else if stack != [] && stack[|stack| - 1] == name {
          ScanIsRun(rest, stack[..|stack| - 1]);
        }
      }
    }
  }

  /** Text made only of white space holds no tag. */
  lemma {:induction false} BlankHasNoTokens(s: string)
    requires forall i :: 0 <= i < |s| ==> IsSpace(s[i])
    ensures Tokens(s) == []
    decreases |s|
  {
    if s != [] {
      assert IsSpace(s[0]);
      TokensStep(s);
      BlankHasNoTokens(s[1..]);
    }
  }

  /** `validateHtml` accepts exactly the documents whose effective tags, read
      in order, are those of a forest of properly nested elements. */
  lemma ValidIffNested(html: string)
    ensures Validation(html).Ok? <==> exists f :: RenderForest(f) == EventsOf(Tokens(html))
  {
    var evs := EventsOf(Tokens(html));
    ScanIsRun(Tokens(html), []);
    AcceptsIffForest(evs);
    if Trim(html) == [] {
      TrimEmptyIff(html);
      BlankHasNoTokens(html);
      assert RenderForest([]) == evs;
    }
  }

  /** The stack machine only ever fails on a closing tag. */
  lemma {:induction false} ScanFailsOnClose(toks: seq<Token>, stack: seq<string>)
    ensures Scan(toks, stack).Err? ==> !Scan(toks, stack).error.UnclosedTags?
    decreases |toks|
  {
    if toks != [] {
      var name := Lower(toks[0].name);
      ScanFailsOnClose(toks[1..], stack);
      ScanFailsOnClose(toks[1..], stack + [name]);
      if stack != [] {
        ScanFailsOnClose(toks[1..], stack[..|stack| - 1]);
      }
    }
  }

  /** "Unclosed tags" is reported exactly when no tag was out of place and
      some element was left open; it lists what the stack still holds. */
  lemma UnclosedIff(html: string, names: seq<string>)
    ensures Validation(html) == Err(UnclosedTags(names)) <==>
      Trim(html) != [] && names != [] && Scan(Tokens(html), []) == Ok(names)
  {
    ScanFailsOnClose(Tokens(html), []);
  }

  /** Opening tags alone are reported as unclosed in the order they were
      opened. */
  lemma {:induction false} OpensStack(evs: seq<Event>, stack: seq<string>)
    requires forall k :: 0 <= k < |evs| ==> evs[k].Open?
    ensures Run(evs, stack) == Some(stack + seq(|evs|, k requires 0 <= k < |evs| => evs[k].name))
    decreases |evs|
  {
    var names := seq(|evs|, k requires 0 <= k < |evs| => evs[k].name);
    if evs == [] {
      assert stack + names == stack;
    } else {
      OpensStack(evs[1..], stack + [evs[0].name]);
      var tailNames := seq(|evs| - 1, k requires 0 <= k < |evs| - 1 => evs[1..][k].name);
      assert names == [evs[0].name] + tailNames;
      assert stack + names == stack + [evs[0].name] + tailNames;
    }
  }

  /** The converse of `TokenAt`'s contract: a `<` or `</`, a letter and its
      run of letters and digits, a character that is neither one nor `_`, and
      the first `>` from there on make the token. */
  lemma TokenAtOf(s: string, start: nat, p: nat, q: nat)
    requires (start == 1 || start == 2) && start < p <= q < |s|
    requires s[0] == '<' && (s[1] == '/' <==> start == 2) && IsLetter(s[start])
    requires forall k :: start + 1 <= k < p ==> IsAlnum(s[k])
    requires !IsAlnum(s[p]) && s[p] != '_'
    requires s[q] == '>' && forall k :: p <= k < q ==> s[k] != '>'
    ensures TokenAt(s) == Some(Token(s[..q + 1], s[start..p], start == 2))
  {
    assert AlnumEnd(s, start + 1) == p;
    IndexOfCharAt(s, '>', p, q);
  }

  /** The token at the front when the name starts at `start` and is
      followed straight away by `>`. */
  lemma NameTokenAt(s: string, start: nat, name: string)
    requires start == 1 || start == 2
    requires |s| > start + |name| && s[0] == '<' && (s[1] == '/' <==> start == 2)
    requires IsTagName(name) && s[start..start + |name|] == name && s[start + |name|] == '>'
    ensures TokenAt(s) == Some(Token(s[..start + |name| + 1], name, start == 2))
  {
    var p := start + |name|;
    assert s[start] == name[0];
    assert s[1] == '/' ==> start == 2;
    assert IsLetter(s[start]);
    forall k | start + 1 <= k < p ensures IsAlnum(s[k]) {
      assert s[k] == name[k - start];
    }
    TokenAtOf(s, start, p, p);
  }

  /** A plain `<name>` at the front is one opening token. */
  lemma TokensOfOpen(name: string, rest: string)
    requires IsTagName(name)
    ensures Tokens("<" + name + ">" + rest) == [Token("<" + name + ">", name, false)] + Tokens(rest)
  {
    var tag := "<" + name + ">";
    var s := tag + rest;
    assert s[1] == name[0];
    assert s[1..1 + |name|] == name;
    NameTokenAt(s, 1, name);
    assert s[..|tag|] == tag;
    TokensStep(s);
    assert s[|tag|..] == rest;
  }

  /** A plain `</name>` at the front is one closing token. */
  lemma TokensOfClose(name: string, rest: string)
    requires IsTagName(name)
    ensures Tokens("</" + name + ">" + rest) == [Token("</" + name + ">", name, true)] + Tokens(rest)
  {
    var tag := "</" + name + ">";
    var s := tag + rest;
    assert s[2..2 + |name|] == name;
    NameTokenAt(s, 2, name);
    assert s[..|tag|] == tag;
    TokensStep(s);
    assert s[|tag|..] == rest;
  }

  /** A document that starts with a tag is not blank. */
  lemma StartsWithTagNotBlank(s: string)
    requires s != [] && s[0] == '<'
    ensures Trim(s) != []
  {
    assert !IsSpace(s[0]);
    TrimEmptyIff(s);
  }

  predicate Effective(name: string) {
    IsTagName(name) && Lower(name) !in Tags.SelfClosingTags
  }

  lemma OpenNotSkipped(name: string)
    requires Effective(name)
    ensures !Skipped(Token("<" + name + ">", name, false))
  {
    var tag := "<" + name + ">";
    assert tag[|tag| - 2..] == [name[|name| - 1], '>'];
  }

  lemma CloseNotSkipped(name: string)
    requires Effective(name)
    ensures !Skipped(Token("</" + name + ">", name, true))
  {
    var tag := "</" + name + ">";
    assert tag[|tag| - 2..] == [name[|name| - 1], '>'];
  }

  /** A closing tag before anything was opened fails at once, whatever
      follows. */
  lemma UnexpectedCloseFirst(name: string, rest: string)
    requires Effective(name)
    ensures Validation("</" + name + ">" + rest) == Err(UnexpectedClosingTag("</" + name + ">"))
  {
    var tag := "</" + name + ">";
    var t := Token(tag, name, true);
    TokensOfClose(name, rest);
    CloseNotSkipped(name);
    ScanStep(t, Tokens(rest), []);
    StartsWithTagNotBlank(tag + rest);
  }

  /** `Validation` of a document that starts with a tag is decided by the
      scan alone. */
  lemma ValidationOfTagged(s: string)
    requires s != [] && s[0] == '<'
    ensures Validation(s) ==
      match Scan(Tokens(s), [])
      case Err(e) => Err(e)
      case Ok(stack) => if stack == [] then Ok(ValidMessage) else Err(UnclosedTags(stack))
  {
    StartsWithTagNotBlank(s);
  }

  lemma ScanOpenThenClose(a: string, b: string, rest: seq<Token>)
    requires Effective(a) && Effective(b)
    ensures Scan([Token("<" + a + ">", a, false)] + ([Token("</" + b + ">", b, true)] + rest), []) ==
      if Lower(a) == Lower(b) then Scan(rest, []) else Err(MismatchedTags(Lower(a), Lower(b)))
  {
    var ta := Token("<" + a + ">", a, false);
    var tb := Token("</" + b + ">", b, true);
    OpenNotSkipped(a);
    CloseNotSkipped(b);
    ScanStep(ta, [tb] + rest, []);
    ScanStep(tb, rest, [Lower(a)]);
    assert [Lower(a)][..0] == [];
  }

  lemma ScanTwoOpens(a: string, b: string)
    requires Effective(a) && Effective(b)
    ensures Scan([Token("<" + a + ">", a, false)] + [Token("<" + b + ">", b, false)], []) == Ok([Lower(a), Lower(b)])
  {
    var ta := Token("<" + a + ">", a, false);
    var tb := Token("<" + b + ">", b, false);
    OpenNotSkipped(a);
    OpenNotSkipped(b);
    calc {
      Scan([ta] + [tb], []);
      { ScanStep(ta, [tb], []); assert [] + [Lower(a)] == [Lower(a)]; }
      Scan([tb], [Lower(a)]);
      { assert [tb] == [tb] + []; ScanStep(tb, [], [Lower(a)]); }
      Scan([], [Lower(a)] + [Lower(b)]);
      { assert [Lower(a)] + [Lower(b)] == [Lower(a), Lower(b)]; }
      Ok([Lower(a), Lower(b)]);
    }
  }

  lemma TokensOfLoneOpen(name: string)
    requires IsTagName(name)
    ensures Tokens("<" + name + ">") == [Token("<" + name + ">", name, false)]
  {
    var tag := "<" + name + ">";
    TokensOfOpen(name, []);
    assert tag + [] == tag;
    assert Tokens([]) == [];
  }

  /** A closing tag that does not match the innermost open element fails at
      once, naming both, whatever follows. */
  lemma MismatchFirst(a: string, b: string, rest: string)
    requires Effective(a) && Effective(b) && Lower(a) != Lower(b)
    ensures Validation("<" + a + ">" + ("</" + b + ">" + rest)) == Err(MismatchedTags(Lower(a), Lower(b)))
  {
    var tail := "</" + b + ">" + rest;
    TokensOfClose(b, rest);
    TokensOfOpen(a, tail);
    ScanOpenThenClose(a, b, Tokens(rest));
    ValidationOfTagged("<" + a + ">" + tail);
  }

  /** Two opening tags and nothing else are reported as unclosed, in the
      order they were opened. */
  lemma UnclosedPair(a: string, b: string)
    requires Effective(a) && Effective(b)
    ensures Validation("<" + a + ">" + ("<" + b + ">")) == Err(UnclosedTags([Lower(a), Lower(b)]))
  {
    var tail := "<" + b + ">";
    TokensOfLoneOpen(b);
    TokensOfOpen(a, tail);
    ScanTwoOpens(a, b);
    ValidationOfTagged("<" + a + ">" + tail);
  }

  /** An element opened and closed, with text in between that holds no tag,
      is valid. */
  lemma SingleElementValid(name: string, text: string)
    requires Effective(name) && Excludes(text, '<')
    ensures Validation("<" + name + ">" + (text + ("</" + name + ">"))) == Ok(ValidMessage)
  {
    var close := "</" + name + ">";
    TokensOfClose(name, []);
    assert close + [] == close;
    NoTagText(text, close);
    TokensOfOpen(name, text + close);
    assert Tokens([]) == [];
    ScanOpenThenClose(name, name, []);
    ValidationOfTagged("<" + name + ">" + (text + close));
  }

  /** Text without `<` contributes no token to what follows it. */
  lemma {:induction false} NoTagText(text: string, rest: string)
    requires Excludes(text, '<')
    ensures Tokens(text + rest) == Tokens(rest)
    decreases |text|
  {
    if text == [] {
      assert text + rest == rest;
    } else {
      var s := text + rest;
      assert s[0] == text[0];
      TokensStep(s);
      assert s[1..] == text[1..] + rest;
      NoTagText(text[1..], rest);
    }
  }
}

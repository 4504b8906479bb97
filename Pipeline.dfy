/** `indentAllLines` (index.ts:168-180) and the default export `convert`
    (index.ts:182-194), which runs the rewrite passes in a fixed order.

    The formatter is the external `beautify` package, loaded on demand; here
    it is a parameter: `beautify(html)` is `Some` of its output, or `None`
    when loading or running it throws. */
module Pipeline {
  import opened Chars
  import opened Wrappers
  import opened Replacing
  import Passes
  import SelfClosing
  import Events
  import Style
  import Attributes

  const BeautifyMissing := "Beautify is not installed. Please install it or disable indentCode."

  /** `indentAllLines`: the identity unless formatting is asked for; a
      failing formatter becomes the fixed error message. */
  function IndentAllLines(html: string, indentCode: bool, beautify: string -> Option<string>): (r: Result<string, string>)
    ensures !indentCode ==> r == Ok(html)
    ensures indentCode ==> (r.Ok? <==> beautify(html).Some?)
    ensures indentCode && r.Ok? ==> r.value == beautify(html).value
    ensures r.Err? ==> r.error == BeautifyMissing
  {
    if !indentCode then Ok(html)
    else match beautify(html)
      case Some(out) => Ok(out)
      case None => Err(BeautifyMissing)
  }

  /** The ten rewrite passes, in the order `convert` applies them. */
  function Transform(html: string): string {
    var h := Passes.RemoveInvalidTags(html);
    var h := Passes.WrapIntoDiv(h);
    var h := SelfClosing.CloseSelfClosingTags(h);
    var h := Events.ConvertEventAttributesToCamelCase(h);
    var h := Passes.ConvertClassToClassName(h);
    var h := Passes.RemoveComments(h);
    var h := Passes.ImageFix(h);
    var h := Style.ConvertStyleToObject(h);
    var h := Passes.RemoveUnsupportedAttrs(h);
    Attributes.RenameAttributes(h)
  }

  function ConvertResult(html: string, indentCode: bool, beautify: string -> Option<string>): Result<string, string> {
    IndentAllLines(Transform(html), indentCode, beautify)
  }

  /** `convert`, reassigning the text pass by pass. */
  method Convert(html: string, indentCode: bool, beautify: string -> Option<string>) returns (r: Result<string, string>)
    ensures r == ConvertResult(html, indentCode, beautify)
    ensures !indentCode ==> r.Ok?
  {
    var h := Passes.RemoveInvalidTags(html);
    h := Passes.WrapIntoDiv(h);
    h := SelfClosing.CloseSelfClosingTags(h);
    h := Events.ConvertEventAttributesToCamelCase(h);
    h := Passes.ConvertClassToClassName(h);
    h := Passes.RemoveComments(h);
    h := Passes.ImageFix(h);
    h := Style.ConvertStyleToObject(h);
    h := Passes.RemoveUnsupportedAttrs(h);
    h := Attributes.ReplaceAttributes(h);
    r := IndentAllLines(h, indentCode, beautify);
  }

  /** Characters no pass reacts to: no letter, and none of `<`, `-`, `/`. */
  predicate Neutral(c: char) {
    !IsLetter(c) && c != '<' && c != '-' && c != '/'
  }

  /** The shape of `<div>` + neutral text + `</div>`: its letters are those
      of `div`, it has no `-`, every `<` is followed by `d` or `/`, and
      every `/` by `d`. */
  predicate Plain(s: string) {
    forall k :: 0 <= k < |s| ==> PlainAt(s, k)
  }

  predicate PlainAt(s: string, k: nat)
    requires k < |s|
  {
    (IsLetter(s[k]) ==> s[k] == 'd' || s[k] == 'i' || s[k] == 'v') &&
    s[k] != '-' &&
    (s[k] == '<' ==> k + 1 < |s| && (s[k + 1] == 'd' || s[k + 1] == '/')) &&
    (s[k] == '/' ==> k + 1 < |s| && s[k + 1] == 'd')
  }

  lemma WrappedPlain(html: string)
    requires forall k :: 0 <= k < |html| ==> Neutral(html[k])
    ensures Plain(Passes.WrapIntoDiv(html))
  {
    var s := Passes.WrapIntoDiv(html);
    var n := |html|;
    forall k | 0 <= k < |s| ensures PlainAt(s, k) {
      if k < 5 {
        assert s[..5] == "<div>";
      } else if k < 5 + n {
        assert s[k] == html[k - 5];
      } else {
        assert s[5 + n..] == "</div>";
        assert s[k] == "</div>"[k - 5 - n];
        if k + 1 < |s| { assert s[k + 1] == "</div>"[k + 1 - 5 - n]; }
      }
    }
  }

  /** A lower-case letter other than those of `div` occurs in no case. */
  lemma PlainLacks(s: string, c: char)
    requires Plain(s) && IsLower(c) && c != 'd' && c != 'i' && c != 'v'
    ensures forall k :: 0 <= k < |s| ==> ToLower(s[k]) != c
  {
    forall k | 0 <= k < |s| ensures ToLower(s[k]) != c {
      assert PlainAt(s, k);
    }
  }

  lemma NoCollapse(s: string)
    requires Plain(s)
    ensures SelfClosing.Collapse(s) == s
  {
    forall k | 0 <= k < |s| ensures !MatchesAt(s[k..], "//>", false) {
      assert PlainAt(s, k);
      var u := s[k..];
      assert u[0] == s[k];
      if |u| >= 2 { assert u[1] == s[k + 1]; }
    }
    NotContains(s, "//>", false);
    ReplaceAbsent(s, "//>", "/>", false);
  }

  /** Each pass after the wrapper leaves such a text as it is. */
  lemma PlainUnchanged(s: string)
    requires Plain(s)
    ensures SelfClosing.CloseSelfClosingTags(s) == s
    ensures Events.ConvertEventAttributesToCamelCase(s) == s
    ensures Passes.ConvertClassToClassName(s) == s
    ensures Passes.RemoveComments(s) == s
    ensures Passes.ImageFix(s) == s
    ensures Style.ConvertStyleToObject(s) == s
    ensures Passes.RemoveUnsupportedAttrs(s) == s
    ensures Attributes.RenameAttributes(s) == s
  {
    PlainSelfClosing(s);
    PlainLacks(s, 'o');
    Events.EventsAbsent(s, false);
    PlainLiterals(s);
    PlainAttributes(s);
  }

  lemma PlainSelfClosing(s: string)
    requires Plain(s)
    ensures SelfClosing.CloseSelfClosingTags(s) == s
  {
    forall k | 0 <= k < |s| && s[k] == '<' ensures k + 1 < |s| && !SelfClosing.IsVoidInitial(s[k + 1]) {
      assert PlainAt(s, k);
      var c := s[k + 1];
      assert c == 'd' || c == '/';
      assert ToLower(c) == c;
    }
    SelfClosing.CloseTagsPlain(s);
    NoCollapse(s);
  }

  lemma PlainLiterals(s: string)
    requires Plain(s)
    ensures Passes.ConvertClassToClassName(s) == s
    ensures Passes.RemoveComments(s) == s
    ensures Passes.ImageFix(s) == s
    ensures Style.ConvertStyleToObject(s) == s
    ensures Passes.RemoveUnsupportedAttrs(s) == s
  {
    PlainLacks(s, 'c');
    AbsentChar(s, "class=", false, 0);
    ReplaceAbsent(s, "class=", "className=", false);
    forall k | 0 <= k < |s| ensures ToLower(s[k]) != '-' {
      assert PlainAt(s, k);
    }
    AbsentChar(s, "-->", false, 0);
    Passes.RemoveCommentsUnterminated(s);
    PlainLacks(s, 'm');
    AbsentChar(s, "</img>", false, 3);
    ReplaceAbsent(s, "</img>", "", false);
    PlainLacks(s, 's');
    AbsentChar(s, "style", true, 0);
    Style.StyleAbsent(s);
    PlainLacks(s, 'x');
    AbsentChar(s, Passes.XlinkAttribute, false, 0);
    ReplaceAbsent(s, Passes.XlinkAttribute, "", false);
  }

  lemma PlainAttributes(s: string)
    requires Plain(s)
    ensures Attributes.RenameAttributes(s) == s
  {
    PlainLacks(s, 'f');
    AbsentChar(s, "for=", true, 0);
    PlainLacks(s, 'a');
    AbsentChar(s, "autocomplete", true, 0);
    PlainLacks(s, 't');
    AbsentChar(s, "tabindex", true, 0);
    PlainLacks(s, 's');
    AbsentChar(s, "stroke-width", true, 0);
    AbsentChar(s, "stroke-linejoin", true, 0);
    AbsentChar(s, "stroke-linecap", true, 0);
    Attributes.RenameAttributesAbsent(s);
  }

  /** A fragment of neutral text comes out only wrapped in the root `div`. */
  lemma NeutralTextWrapped(html: string)
    requires forall k :: 0 <= k < |html| ==> Neutral(html[k])
    ensures Transform(html) == Passes.WrapIntoDiv(html)
  {
    AbsentChar(html, "<!DOCTYPE", true, 3);
    Passes.RemoveInvalidTagsAbsent(html);
    WrappedPlain(html);
    PlainUnchanged(Passes.WrapIntoDiv(html));
  }

  /** `convert('')` is `<div></div>` and does not throw. */
  lemma ConvertEmpty(html: string, beautify: string -> Option<string>)
    requires |html| == 0
    ensures ConvertResult(html, false, beautify) == Ok("<div></div>")
  {
    NeutralTextWrapped(html);
    WrapEmpty(html);
  }

  lemma WrapEmpty(html: string)
    requires |html| == 0
    ensures Passes.WrapIntoDiv(html) == "<div></div>"
  {
    assert html == [];
  }
}

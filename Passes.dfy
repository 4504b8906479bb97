/** The literal rewrite passes of the pipeline: each is one `replace` or
    `replaceAll` with a fixed pattern (index.ts:4-6, 51-57, 102-112). */
module Passes {
  import opened Chars
  import opened Wrappers
  import opened Replacing

  /** `wrapIntoDiv`: one root element around the fragment. */
  function WrapIntoDiv(html: string): (r: string)
    ensures StartsWith(r, "<div>") && |r| == |html| + 11
    ensures r[5..|r| - 6] == html && r[|r| - 6..] == "</div>"
  {
    "<div>" + html + "</div>"
  }

  /** `convertClassToClassName`: every case-sensitive `class=` becomes `className=`. */
  function ConvertClassToClassName(html: string): string {
    Replace(html, "class=", "className=", false)
  }

  /** No `class=` survives the rename, even across the boundary of a replacement. */
  lemma {:induction false} NoClassLeft(s: string)
    ensures !Contains(ConvertClassToClassName(s), "class=", false)
    decreases |s|
  {
    var pat, rep := "class=", "className=";
    if |s| == 0 {
    } else if StartsWith(s, pat) {
      var rest := Replace(s[6..], pat, rep, false);
      NoClassLeft(s[6..]);
      assert ConvertClassToClassName(s) == rep + rest;
      forall k | 0 <= k < |rep| ensures !MatchesAt((rep + rest)[k..], pat, false) {
        var u := (rep + rest)[k..];
        if k == 0 {
          assert u[5] == 'N';
        } else {
          assert u[0] == rep[k];
        }
      }
      ContainsAfter(rep, rest, pat, false);
    } else {
      var t := Replace(s[1..], pat, rep, false);
      NoClassLeft(s[1..]);
      var r := [s[0]] + t;
      assert ConvertClassToClassName(s) == r;
      assert r[1..] == t && pat == ['c'] + "lass=";
      StartsWithCons(s, 'c', "lass=");
      StartsWithCons(r, 'c', "lass=");
      if StartsWith(t, "lass=") {
        PrefixCopied(s[1..], pat, rep, false, "lass=");
      }
    }
  }

  /** Running the rename a second time changes nothing. */
  lemma ClassRenameIdempotent(s: string)
    ensures ConvertClassToClassName(ConvertClassToClassName(s)) == ConvertClassToClassName(s)
  {
    NoClassLeft(s);
    ReplaceAbsent(ConvertClassToClassName(s), "class=", "className=", false);
  }

  /** `removeComments`: each `<!--` up to the nearest following `-->` is deleted;
      an opener with no terminator after it stays. */
  function RemoveComments(html: string): string
    decreases |html|
  {
    if |html| == 0 then []
    else if StartsWith(html, "<!--") then
      match IndexOf(html, "-->", 4)
      case Some(j) => RemoveComments(html[j + 3..])
      case None => [html[0]] + RemoveComments(html[1..])
    else [html[0]] + RemoveComments(html[1..])
  }

  /** A comment whose body does not close early disappears with its delimiters. */
  lemma RemoveCommentsDropsComment(body: string, rest: string)
    requires !Contains(body + "--", "-->", false)
    ensures RemoveComments("<!--" + body + "-->" + rest) == RemoveComments(rest)
  {
    var s := "<!--" + body + "-->" + rest;
    var u := body + "--";
    var j := 4 + |body|;
    assert s[..4] == "<!--";
    assert s[j..j + 3] == "-->";
    assert s[4..j + 2] == u;
    forall k | 4 <= k < j ensures !StartsWith(s[k..], "-->") {
      if StartsWith(s[k..], "-->") {
        assert u[k - 4..][..3] == s[k..k + 3];
        ContainsAt(u, k - 4, "-->", false);
      }
    }
    assert s[j..][..3] == "-->";
    IndexOfFirst(s, "-->", 4, j);
    assert s[j + 3..] == rest;
  }

  /** Text without any `-->` is left untouched, unterminated comments included. */
  lemma {:induction false} RemoveCommentsUnterminated(s: string)
    requires !Contains(s, "-->", false)
    ensures RemoveComments(s) == s
    decreases |s|
  {
    if |s| > 0 {
      if StartsWith(s, "<!--") {
        if IndexOf(s, "-->", 4).Some? {
          ContainsAt(s, IndexOf(s, "-->", 4).value, "-->", false);
        }
      }
      assert !Contains(s[1..], "-->", false);
      RemoveCommentsUnterminated(s[1..]);
      assert [s[0]] + s[1..] == s;
    }
  }

  /** Text without any `<!--` is left untouched. */
  lemma {:induction false} RemoveCommentsNoOpener(s: string)
    requires !Contains(s, "<!--", false)
    ensures RemoveComments(s) == s
    decreases |s|
  {
    if |s| > 0 {
      assert !Contains(s[1..], "<!--", false);
      RemoveCommentsNoOpener(s[1..]);
      assert [s[0]] + s[1..] == s;
    }
  }

  lemma RemoveCommentsCopy(c: char, t: string)
    requires !StartsWith([c] + t, "<!--")
    ensures RemoveComments([c] + t) == [c] + RemoveComments(t)
  {
    assert ([c] + t)[1..] == t;
  }

  /** Deleting a comment can bring the halves of another one together, so a
      second run deletes more: the pass is not idempotent. */
  lemma RemoveCommentsNotIdempotent(head: string, comment: string, tail: string)
    requires head == "<!-" && comment == "<!---->" && tail == "--->"
    ensures RemoveComments(head + comment + tail) == head + tail
    ensures RemoveComments(head + tail) == []
  {
    RemoveCommentsJoinedHalves(head, comment, tail);
    RemoveCommentsRejoined(head, tail);
  }

  lemma RemoveCommentsJoinedHalves(head: string, comment: string, tail: string)
    requires head == "<!-" && comment == "<!---->" && tail == "--->"
    ensures RemoveComments(head + comment + tail) == head + tail
  {
    RemoveCommentsInnerDropped(comment, tail);
    assert head == [head[0], head[1], head[2]];
    RemoveCommentsCopyOpenerPrefix(head[0], head[1], head[2], comment + tail);
    assert head + comment + tail == head + (comment + tail);
  }

  /** An incomplete opener in front of an opener is copied. */
  lemma RemoveCommentsCopyOpenerPrefix(a: char, b: char, c: char, x: string)
    requires a == '<' && b == '!' && c == '-' && x != [] && x[0] == '<'
    ensures RemoveComments([a, b, c] + x) == [a, b, c] + RemoveComments(x)
  {
    var x1 := [c] + x;
    var x0 := [b] + x1;
    NotStartsWith(x1, "<!--", 0);
    NotStartsWith(x0, "<!--", 0);
    NotStartsWith([a] + x0, "<!--", 3);
    RemoveCommentsCopy(c, x);
    RemoveCommentsCopy(b, x1);
    RemoveCommentsCopy(a, x0);
    var r := RemoveComments(x);
    assert RemoveComments([a] + x0) == [a] + ([b] + ([c] + r));
    Regroup3(a, b, c, x);
    Regroup3(a, b, c, r);
  }

  lemma Regroup3(a: char, b: char, c: char, x: string)
    ensures [a] + ([b] + ([c] + x)) == [a, b, c] + x
  {
  }

  lemma RemoveCommentsInnerDropped(comment: string, tail: string)
    requires comment == "<!---->" && tail == "--->"
    ensures RemoveComments(comment + tail) == tail
  {
    var empty: string := [];
    AbsentChar(empty + "--", "-->", false, 2);
    assert comment == "<!--" + empty + "-->";
    RemoveCommentsDropsComment(empty, tail);
    AbsentChar(tail, "<!--", false, 0);
    RemoveCommentsNoOpener(tail);
  }

  lemma RemoveCommentsRejoined(head: string, tail: string)
    requires head == "<!-" && tail == "--->"
    ensures RemoveComments(head + tail) == []
  {
    var empty: string := [];
    var s := head + tail;
    var t := "<!--" + empty + "-->" + empty;
    assert |s| == |t| == 7;
    assert forall i :: 0 <= i < 7 ==> s[i] == t[i];
    AbsentChar(empty + "--", "-->", false, 2);
    RemoveCommentsDropsComment(empty, empty);
  }

  /** `imageFix`: every `</img>` is deleted. */
  function ImageFix(html: string): string {
    Replace(html, "</img>", "", false)
  }

  /** Every occurrence is deleted and the text between occurrences is kept,
      as `split` and `join('')` would. */
  lemma ImageFixIsSplitJoin(s: string)
    ensures ImageFix(s) == Join(Split(s, "</img>"), [])
  {
    ReplaceIsSplitJoin(s, "</img>", []);
  }

  /** Deleting one `</img>` can join the halves of another: the pass is not
      idempotent. The halves are `<` and `/img>`. */
  lemma ImageFixNotIdempotent(lt: string, tail: string)
    requires lt == "<" && tail == "/img>"
    ensures ImageFix(lt + "</img>" + tail) == "</img>"
    ensures ImageFix("</img>") == []
  {
    var pat := lt + tail;
    assert pat == "</img>" && lt == [lt[0]];
    DeletionRejoins(lt[0], tail);
    assert lt + pat + tail == [lt[0]] + (pat + tail);
    ReplaceAtFront(pat, [], []);
    assert pat + [] == pat;
  }

  const XlinkAttribute := "xmlns:xlink=\"http://www.w3.org/1999/xlink\""

  /** `removeUnsuportedAttrs`: the exact `xmlns:xlink` declaration is deleted. */
  function RemoveUnsupportedAttrs(html: string): string {
    Replace(html, XlinkAttribute, "", false)
  }

  lemma RemoveUnsupportedAttrsIsSplitJoin(s: string)
    ensures RemoveUnsupportedAttrs(s) == Join(Split(s, XlinkAttribute), [])
  {
    ReplaceIsSplitJoin(s, XlinkAttribute, []);
  }

  /** `removeInvalidTags`: one scan deleting `<!DOCTYPE html>` and `<!DOCTYPE>`,
      both matched without regard to case; at a position the first alternative
      is tried first. */
  function RemoveInvalidTags(html: string): string
    decreases |html|
  {
    if |html| == 0 then []
    else if StartsWithIgnoreCase(html, "<!DOCTYPE html>") then RemoveInvalidTags(html[15..])
    else if StartsWithIgnoreCase(html, "<!DOCTYPE>") then RemoveInvalidTags(html[10..])
    else [html[0]] + RemoveInvalidTags(html[1..])
  }

  /** A full doctype, in any case, is deleted from the front. */
  lemma DoctypeHtmlDropped(w: string, rest: string)
    requires Lower(w) == Lower("<!DOCTYPE html>")
    ensures RemoveInvalidTags(w + rest) == RemoveInvalidTags(rest)
  {
    var s := w + rest;
    assert s[..|w|] == w && s[|w|..] == rest;
  }

  /** The short doctype, in any case, is deleted from the front; the long
      alternative does not apply to it. */
  lemma DoctypeDropped(w: string, rest: string)
    requires Lower(w) == Lower("<!DOCTYPE>")
    ensures RemoveInvalidTags(w + rest) == RemoveInvalidTags(rest)
  {
    var s := w + rest;
    assert s[..|w|] == w && s[|w|..] == rest;
    if |s| >= 15 {
      assert Lower(s[..15])[9] == ToLower(w[9]) == '>';
      assert Lower("<!DOCTYPE html>")[9] == ' ';
    }
  }

  /** Text with no `<!doctype`, in any case, is left untouched. */
  lemma {:induction false} RemoveInvalidTagsAbsent(s: string)
    requires !Contains(s, "<!DOCTYPE", true)
    ensures RemoveInvalidTags(s) == s
    decreases |s|
  {
    if |s| > 0 {
      if StartsWithIgnoreCase(s, "<!DOCTYPE html>") || StartsWithIgnoreCase(s, "<!DOCTYPE>") {
        var p := if StartsWithIgnoreCase(s, "<!DOCTYPE html>") then "<!DOCTYPE html>" else "<!DOCTYPE>";
        StartsWithIgnoreCasePrefix(s, p, "<!DOCTYPE");
      }
      RemoveInvalidTagsAbsent(s[1..]);
      assert [s[0]] + s[1..] == s;
    }
  }
}

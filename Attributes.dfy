/** `replaceAttributes` (index.ts:114-121): HTML attribute names that JSX
    spells differently. First every `for=`, in any case and wherever it
    occurs (not only as a whole word), becomes `htmlFor=`; then five names,
    matched in any case and only as whole words (`\b` on both sides), get
    their fixed JSX spelling. */
module Attributes {
  import opened Chars
  import opened Replacing

  /** The first rule, a plain case-insensitive global replacement. */
  function RenameFor(html: string): string {
    Replace(html, "for=", "htmlFor=", true)
  }

  /** `\bword\b` at the front of `s`, ignoring case; `afterWord` tells
      whether the character before `s` is a word character. Every name
      below starts and ends with a letter, so `\b` asks for a non-word
      character (or the edge of the text) on each side. */
  predicate WordAt(s: string, word: string, afterWord: bool) {
    !afterWord && StartsWithIgnoreCase(s, word) && (|s| == |word| || !IsWordChar(s[|word|]))
  }

  /** `s.replace(/\b(word)\b/gi, rep)` over the suffix `s`. */
  function ReplaceWord(s: string, word: string, rep: string, afterWord: bool): string
    requires word != []
    decreases |s|
  {
    if s == [] then []
    else if WordAt(s, word, afterWord) then rep + ReplaceWord(s[|word|..], word, rep, IsWordChar(s[|word| - 1]))
    else [s[0]] + ReplaceWord(s[1..], word, rep, IsWordChar(s[0]))
  }

  function RenameWord(html: string, word: string, rep: string): string
    requires word != []
  {
    ReplaceWord(html, word, rep, false)
  }

  /** The whole rewrite, as one function of the input. */
  function RenameAttributes(html: string): string {
    var h := RenameFor(html);
    var h := RenameWord(h, "autocomplete", "autoComplete");
    var h := RenameWord(h, "tabindex", "tabIndex");
    var h := RenameWord(h, "stroke-width", "strokeWidth");
    var h := RenameWord(h, "stroke-linejoin", "strokeLinejoin");
    RenameWord(h, "stroke-linecap", "strokeLinecap")
  }

  /** `replaceAttributes`, reassigning the text rule by rule. */
  method ReplaceAttributes(html: string) returns (r: string)
    ensures r == RenameAttributes(html)
  {
    r := RenameFor(html);
    r := RenameWord(r, "autocomplete", "autoComplete");
    r := RenameWord(r, "tabindex", "tabIndex");
    r := RenameWord(r, "stroke-width", "strokeWidth");
    r := RenameWord(r, "stroke-linejoin", "strokeLinejoin");
    r := RenameWord(r, "stroke-linecap", "strokeLinecap");
  }

  /** Text without the name, in any case, is left as it is. */
  lemma {:induction false} ReplaceWordAbsent(s: string, word: string, rep: string, afterWord: bool)
    requires word != [] && !Contains(s, word, true)
    ensures ReplaceWord(s, word, rep, afterWord) == s
    decreases |s|
  {
    if s != [] {
      ReplaceWordAbsent(s[1..], word, rep, IsWordChar(s[0]));
      assert [s[0]] + s[1..] == s;
    }
  }

  lemma LowerAppend(a: string, b: string)
    ensures Lower(a + b) == Lower(a) + Lower(b)
  {
  }

  /** A rename that only changes case (`autocomplete`, `tabindex`) leaves
      the text equal to the input up to case. */
  lemma {:induction false} CaseOnlyRename(s: string, word: string, rep: string, afterWord: bool)
    requires word != [] && Lower(rep) == Lower(word)
    ensures Lower(ReplaceWord(s, word, rep, afterWord)) == Lower(s)
    decreases |s|
  {
    if s != [] {
      if WordAt(s, word, afterWord) {
        var t := s[|word|..];
        CaseOnlyRename(t, word, rep, IsWordChar(s[|word| - 1]));
        LowerAppend(rep, ReplaceWord(t, word, rep, IsWordChar(s[|word| - 1])));
        LowerAppend(s[..|word|], t);
        assert s[..|word|] + t == s;
      } else {
        CaseOnlyRename(s[1..], word, rep, IsWordChar(s[0]));
        LowerAppend([s[0]], ReplaceWord(s[1..], word, rep, IsWordChar(s[0])));
        LowerAppend([s[0]], s[1..]);
        assert [s[0]] + s[1..] == s;
      }
    }
  }

  /** The name at the front, in any spelling, followed by a non-word
      character or the end, is replaced. */
  lemma WordAtFront(w: string, rest: string, word: string, rep: string)
    requires word != [] && Lower(w) == Lower(word)
    requires rest == [] || !IsWordChar(rest[0])
    ensures RenameWord(w + rest, word, rep) == rep + ReplaceWord(rest, word, rep, IsWordChar(w[|w| - 1]))
  {
    var s := w + rest;
    assert s[..|word|] == w;
    assert s[|word|..] == rest;
    assert |s| > |word| ==> s[|word|] == rest[0];
    assert s[|word| - 1] == w[|w| - 1];
  }

  /** A longer word that begins with the name (`tabindexes`) is not a match. */
  lemma LongerWordKept(w: string, c: char, rest: string, word: string, rep: string)
    requires word != [] && Lower(w) == Lower(word) && IsWordChar(c)
    ensures !WordAt(w + [c] + rest, word, false)
  {
    assert (w + [c] + rest)[|word|] == c;
  }

  /** Text with none of the six patterns, in any case, is left as it is. */
  lemma RenameAttributesAbsent(s: string)
    requires !Contains(s, "for=", true)
    requires !Contains(s, "autocomplete", true) && !Contains(s, "tabindex", true)
    requires !Contains(s, "stroke-width", true) && !Contains(s, "stroke-linejoin", true)
    requires !Contains(s, "stroke-linecap", true)
    ensures RenameAttributes(s) == s
  {
    ReplaceAbsent(s, "for=", "htmlFor=", true);
    ReplaceWordAbsent(s, "autocomplete", "autoComplete", false);
    ReplaceWordAbsent(s, "tabindex", "tabIndex", false);
    ReplaceWordAbsent(s, "stroke-width", "strokeWidth", false);
    ReplaceWordAbsent(s, "stroke-linejoin", "strokeLinejoin", false);
    ReplaceWordAbsent(s, "stroke-linecap", "strokeLinecap", false);
  }

  /** `for=` is replaced wherever it occurs, even inside a longer name:
      after a prefix in which it does not start, `xfor=` gives `xhtmlFor=`. */
  lemma ForInsideWord(pre: string, f: string, rest: string)
    requires Lower(f) == "for="
    requires forall k :: 0 <= k < |pre| ==> !MatchesAt((pre + (f + rest))[k..], "for=", true)
    ensures RenameFor(pre + (f + rest)) == pre + ("htmlFor=" + RenameFor(rest))
  {
    ReplaceAfter(pre, f + rest, "for=", "htmlFor=", true);
    assert (f + rest)[..4] == f && (f + rest)[4..] == rest;
  }

  /** The rule is not idempotent: its own output `htmlFor=` contains `For=`,
      which it matches again. */
  lemma RenameForNotIdempotent()
    ensures RenameFor("for=") == "htmlFor="
    ensures RenameFor(RenameFor("for=")) == "html" + "htmlFor="
  {
    ForInsideWord([], "for=", []);
    assert [] + ("for=" + []) == "for=";
    var h: string := "html";
    forall k | 0 <= k < 4 ensures !MatchesAt((h + ("For=" + []))[k..], "for=", true) {
      var u := (h + ("For=" + []))[k..];
      assert ToLower(u[0]) != 'f';
      assert Lower(u[..4])[0] == ToLower(u[0]);
    }
    ForInsideWord(h, "For=", []);
    assert h + ("For=" + []) == "htmlFor=";
  }
}

/** `toCamelCase` (index.ts:84-93): split at every `-`, `_` or white-space
    character, lower-case the first word, capitalise the others, and join the
    words with nothing between them. */
module CamelCase {
  import opened Chars

  /** The characters of `[-_\s]`. */
  predicate IsSeparator(c: char) {
    c == '-' || c == '_' || IsSpace(c)
  }

  /** `split(/[-_\s]/)`: the pieces between separators, empty ones included. */
  function Words(s: string): (ws: seq<string>)
    ensures |ws| >= 1
    decreases |s|
  {
    if s == [] then [[]]
    else if IsSeparator(s[0]) then [[]] + Words(s[1..])
    else
      var t := Words(s[1..]);
      [[s[0]] + t[0]] + t[1..]
  }

  /** `word.charAt(0).toUpperCase() + word.slice(1).toLowerCase()`. */
  function Capitalize(w: string): (r: string)
    ensures |r| == |w|
  {
    if w == [] then [] else [ToUpper(w[0])] + Lower(w[1..])
  }

  /** The words after the first, each capitalised, joined with nothing. */
  function JoinCapitalized(ws: seq<string>): string
    decreases |ws|
  {
    if ws == [] then [] else Capitalize(ws[0]) + JoinCapitalized(ws[1..])
  }

  /** `toCamelCase`. */
  function ToCamelCase(s: string): string {
    var ws := Words(s);
    Lower(ws[0]) + JoinCapitalized(ws[1..])
  }

  /** Where a character-by-character reading of the input stands: still in
      the first word, just past a separator, or inside a later word. */
  datatype Mode = FirstWord | WordStart | InWord

  /** The reference reading: separators vanish, the first letter after a
      separator goes to upper case unless still in the first word, and every
      other character goes to lower case. */
  function CamelChars(s: string, mode: Mode): (r: string)
    decreases |s|
  {
    if s == [] then []
    else if IsSeparator(s[0]) then CamelChars(s[1..], WordStart)
    else
      [if mode == WordStart then ToUpper(s[0]) else ToLower(s[0])] +
      CamelChars(s[1..], if mode == WordStart then InWord else mode)
  }

  function Head(w: string, mode: Mode): string {
    if mode == WordStart then Capitalize(w) else Lower(w)
  }

  lemma LowerCons(c: char, w: string)
    ensures Lower([c] + w) == [ToLower(c)] + Lower(w)
  {
  }

  lemma {:induction false} CamelCharsIsWords(s: string, mode: Mode)
    ensures var ws := Words(s); CamelChars(s, mode) == Head(ws[0], mode) + JoinCapitalized(ws[1..])
    decreases |s|
  {
    if s == [] {
      assert Lower([]) == [];
    } else if IsSeparator(s[0]) {
      var u := Words(s[1..]);
      CamelCharsIsWords(s[1..], WordStart);
      assert Words(s) == [[]] + u;
      assert ([[]] + u)[1..] == u;
      assert Lower([]) == [];
      assert JoinCapitalized(u) == Capitalize(u[0]) + JoinCapitalized(u[1..]);
    } else {
      var u := Words(s[1..]);
      var next := if mode == WordStart then InWord else mode;
      CamelCharsIsWords(s[1..], next);
      var t := [[s[0]] + u[0]] + u[1..];
      assert Words(s) == t;
      assert t[1..] == u[1..];
      LowerCons(s[0], u[0]);
      assert ([s[0]] + u[0])[1..] == u[0];
    }
  }

  /** `toCamelCase` agrees with the character-by-character reading. */
  lemma ToCamelCaseIsCamelChars(s: string)
    ensures ToCamelCase(s) == CamelChars(s, FirstWord)
  {
    CamelCharsIsWords(s, FirstWord);
  }

  /** No separator survives, and the rest of the input keeps its length and
      its letters up to case. */
  lemma {:induction false} CamelCharsDropsSeparators(s: string, mode: Mode)
    ensures forall i :: 0 <= i < |CamelChars(s, mode)| ==> !IsSeparator(CamelChars(s, mode)[i])
    ensures Lower(CamelChars(s, mode)) == Lower(Kept(s))
    decreases |s|
  {
    if s != [] {
      var next := if IsSeparator(s[0]) then WordStart else if mode == WordStart then InWord else mode;
      CamelCharsDropsSeparators(s[1..], next);
      if !IsSeparator(s[0]) {
        var c := if mode == WordStart then ToUpper(s[0]) else ToLower(s[0]);
        var r := CamelChars(s, mode);
        var t := CamelChars(s[1..], next);
        assert r == [c] + t;
        assert !IsSeparator(c);
        assert ToLower(c) == ToLower(s[0]);
        LowerCons(c, t);
        LowerCons(s[0], Kept(s[1..]));
      }
    }
  }

  /** The input with its separators removed. */
  function Kept(s: string): string
    decreases |s|
  {
    if s == [] then [] else if IsSeparator(s[0]) then Kept(s[1..]) else [s[0]] + Kept(s[1..])
  }

  /** `toCamelCase` removes every separator and changes nothing else but the
      case of letters. */
  lemma CamelCaseShape(s: string)
    ensures forall i :: 0 <= i < |ToCamelCase(s)| ==> !IsSeparator(ToCamelCase(s)[i])
    ensures Lower(ToCamelCase(s)) == Lower(Kept(s))
  {
    ToCamelCaseIsCamelChars(s);
    CamelCharsDropsSeparators(s, FirstWord);
  }

  /** Text without separators is only lower-cased. */
  lemma {:induction false} OneWordLowered(s: string, mode: Mode)
    requires mode != WordStart
    requires forall i :: 0 <= i < |s| ==> !IsSeparator(s[i])
    ensures CamelChars(s, mode) == Lower(s)
    decreases |s|
  {
    if s != [] {
      OneWordLowered(s[1..], mode);
      LowerCons(s[0], s[1..]);
      assert [s[0]] + s[1..] == s;
    }
  }

  lemma SingleWord(s: string)
    requires forall i :: 0 <= i < |s| ==> !IsSeparator(s[i])
    ensures ToCamelCase(s) == Lower(s)
  {
    ToCamelCaseIsCamelChars(s);
    OneWordLowered(s, FirstWord);
  }

  predicate NoSeparator(s: string) {
    forall i :: 0 <= i < |s| ==> !IsSeparator(s[i])
  }

  lemma {:induction false} CamelCharsAppend(a: string, rest: string, mode: Mode)
    requires mode != WordStart && NoSeparator(a)
    ensures CamelChars(a + rest, mode) == Lower(a) + CamelChars(rest, mode)
    decreases |a|
  {
    if a == [] {
      assert a + rest == rest;
      assert Lower(a) == [];
    } else {
      var s := a + rest;
      assert s[0] == a[0] && !IsSeparator(a[0]);
      assert s[1..] == a[1..] + rest;
      assert CamelChars(s, mode) == [ToLower(a[0])] + CamelChars(a[1..] + rest, mode);
      CamelCharsAppend(a[1..], rest, mode);
      assert [a[0]] + a[1..] == a;
      LowerCons(a[0], a[1..]);
    }
  }

  /** Two words joined by one separator: the first lower-cased, the second
      capitalised (`font-size` gives `fontSize`). */
  lemma TwoWords(a: string, sep: char, b: string)
    requires NoSeparator(a) && IsSeparator(sep) && NoSeparator(b)
    ensures ToCamelCase(a + [sep] + b) == Lower(a) + Capitalize(b)
  {
    ToCamelCaseIsCamelChars(a + [sep] + b);
    assert a + [sep] + b == a + ([sep] + b);
    CamelCharsAppend(a, [sep] + b, FirstWord);
    assert ([sep] + b)[1..] == b;
    if b != [] {
      OneWordLowered(b[1..], InWord);
    }
  }
}

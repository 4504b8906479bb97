/** Inline styles: `cssToObject` (index.ts:8-26) turns the text of a `style`
    attribute into the source of a JSX style object, and
    `convertStyleToObject` (index.ts:96-100) rewrites every
    `style = "..."` attribute of a document with it. */
module Style {
  import opened Chars
  import opened Wrappers
  import opened Replacing

  predicate QuoteFree(s: string) {
    forall i :: 0 <= i < |s| ==> !IsQuote(s[i])
  }

  /** `replace(/['"]/g, '')`: every single and double quote removed. */
  function StripQuotes(s: string): (r: string)
    ensures |r| <= |s| && QuoteFree(r)
    decreases |s|
  {
    if s == [] then []
    else if IsQuote(s[0]) then StripQuotes(s[1..])
    else [s[0]] + StripQuotes(s[1..])
  }

  lemma {:induction false} StripQuotesOfQuoteFree(s: string)
    requires QuoteFree(s)
    ensures StripQuotes(s) == s
    decreases |s|
  {
    if s != [] {
      StripQuotesOfQuoteFree(s[1..]);
      assert [s[0]] + s[1..] == s;
    }
  }

  lemma {:induction false} StripQuotesAppend(a: string, b: string)
    ensures StripQuotes(a + b) == StripQuotes(a) + StripQuotes(b)
    decreases |a|
  {
    if a == [] {
      assert a + b == b;
    } else {
      assert (a + b)[0] == a[0];
      assert (a + b)[1..] == a[1..] + b;
      StripQuotesAppend(a[1..], b);
    }
  }

  /** On one character: a quote is dropped, anything else is kept. With
      `StripQuotesAppend` this fixes `StripQuotes` on every text: the
      characters that are not quotes, in their order. */
  lemma StripQuotesChar(c: char)
    ensures StripQuotes([c]) == if IsQuote(c) then [] else [c]
  {
    assert [c][1..] == [];
  }

  /** One declaration of a style attribute, both halves trimmed. */
  datatype Declaration = Declaration(property: string, value: string)

  /** A declaration that survives parsing: neither half empty nor padded. */
  predicate Parsed(d: Declaration) {
    d.property != [] && d.value != [] && Trimmed(d.property) && Trimmed(d.value)
  }

  /** One piece between semicolons: `[property, value]` are the first two
      pieces between colons, trimmed; a missing or empty half drops the
      declaration. */
  function ParseDeclaration(piece: string): (r: Option<Declaration>)
    ensures r.Some? ==> Parsed(r.value)
  {
    var parts := Split(piece, ":");
    var property := Trim(parts[0]);
    var value := if |parts| >= 2 then Trim(parts[1]) else [];
    TrimIsInner(parts[0]);
    TrimIsInner(if |parts| >= 2 then parts[1] else []);
    if property == [] || value == [] then None else Some(Declaration(property, value))
  }

  /** The pieces that are neither blank nor rejected by `ParseDeclaration`, in
      order. */
  function Declarations(pieces: seq<string>): (ds: seq<Declaration>)
    ensures |ds| <= |pieces|
    ensures forall k :: 0 <= k < |ds| ==> Parsed(ds[k])
    decreases |pieces|
  {
    if pieces == [] then []
    else if Trim(pieces[0]) == [] then Declarations(pieces[1..])
    else match ParseDeclaration(pieces[0])
      case None => Declarations(pieces[1..])
      case Some(d) => [d] + Declarations(pieces[1..])
  }

  /** Declarations are read piece by piece: the list for two runs of pieces
      is the two lists one after the other. */
  lemma {:induction false} DeclarationsAppend(a: seq<string>, b: seq<string>)
    ensures Declarations(a + b) == Declarations(a) + Declarations(b)
    decreases |a|
  {
    if a == [] {
      assert a + b == b;
    } else {
      assert (a + b)[0] == a[0];
      assert (a + b)[1..] == a[1..] + b;
      DeclarationsAppend(a[1..], b);
    }
  }

  /** One piece gives no declaration when it is blank or does not parse, and
      otherwise the one it parses to. */
  lemma DeclarationsOne(piece: string)
    ensures Trim(piece) == [] || ParseDeclaration(piece).None? ==> Declarations([piece]) == []
    ensures Trim(piece) != [] && ParseDeclaration(piece).Some? ==>
      Declarations([piece]) == [ParseDeclaration(piece).value]
  {
    assert [piece][1..] == [];
  }

  /** `property.replace(/-([a-z])/g, ...)`: a dash before a lower-case letter
      becomes that letter in upper case. */
  function CamelProperty(p: string): (r: string)
    ensures |r| <= |p|
    ensures p != [] ==> (r != [] &&
      r[0] == (if |p| >= 2 && p[0] == '-' && IsLower(p[1]) then ToUpper(p[1]) else p[0]))
    decreases |p|
  {
    if |p| >= 2 && p[0] == '-' && IsLower(p[1]) then [ToUpper(p[1])] + CamelProperty(p[2..])
    else if p == [] then []
    else [p[0]] + CamelProperty(p[1..])
  }

  /** A property without a dash is its own camel-cased form. */
  lemma {:induction false} CamelOfDashFree(p: string)
    requires Excludes(p, '-')
    ensures CamelProperty(p) == p
    decreases |p|
  {
    if p != [] {
      CamelOfDashFree(p[1..]);
      assert [p[0]] + p[1..] == p;
    }
  }

  /** The CSS spelling of a camel-cased property: each upper-case letter
      becomes a dash and the letter in lower case. */
  function Kebab(q: string): (r: string)
    ensures q != [] ==> r != [] && r[0] == (if IsUpper(q[0]) then '-' else q[0])
    decreases |q|
  {
    if q == [] then []
    else if IsUpper(q[0]) then ['-', ToLower(q[0])] + Kebab(q[1..])
    else [q[0]] + Kebab(q[1..])
  }

  predicate NoDashLower(s: string) {
    forall i :: 0 <= i < |s| - 1 ==> !(s[i] == '-' && IsLower(s[i + 1]))
  }

  predicate NoUpper(s: string) {
    forall i :: 0 <= i < |s| ==> !IsUpper(s[i])
  }

  /** No dash is left in front of a lower-case letter. */
  lemma {:induction false} CamelLeavesNoDashLower(p: string)
    ensures NoDashLower(CamelProperty(p))
    decreases |p|
  {
    if |p| >= 2 && p[0] == '-' && IsLower(p[1]) {
      CamelLeavesNoDashLower(p[2..]);
      var r := CamelProperty(p);
      var t := CamelProperty(p[2..]);
      assert r == [ToUpper(p[1])] + t;
      forall i | 0 <= i < |r| - 1 ensures !(r[i] == '-' && IsLower(r[i + 1])) {
        if i > 0 { assert r[i] == t[i - 1] && r[i + 1] == t[i]; }
      }
    } else if p != [] {
      CamelLeavesNoDashLower(p[1..]);
      var r := CamelProperty(p);
      var t := CamelProperty(p[1..]);
      assert r == [p[0]] + t;
      forall i | 0 <= i < |r| - 1 ensures !(r[i] == '-' && IsLower(r[i + 1])) {
        if i > 0 { assert r[i] == t[i - 1] && r[i + 1] == t[i]; }
      }
    }
  }

  /** A property written without capitals comes back from its camel-cased
      form. */
  lemma {:induction false} KebabOfCamel(p: string)
    requires NoUpper(p)
    ensures Kebab(CamelProperty(p)) == p
    decreases |p|
  {
    if |p| >= 2 && p[0] == '-' && IsLower(p[1]) {
      KebabOfCamel(p[2..]);
      var u := ToUpper(p[1]);
      assert ([u] + CamelProperty(p[2..]))[1..] == CamelProperty(p[2..]);
      assert ['-', p[1]] + p[2..] == p;
    } else if p != [] {
      KebabOfCamel(p[1..]);
      assert ([p[0]] + CamelProperty(p[1..]))[1..] == CamelProperty(p[1..]);
      assert [p[0]] + p[1..] == p;
    }
  }

  /** A camel-cased name without a dash before a lower-case letter comes back
      from its CSS spelling. */
  lemma {:induction false} CamelOfKebab(q: string)
    requires NoDashLower(q)
    ensures CamelProperty(Kebab(q)) == q
    decreases |q|
  {
    if q != [] {
      var k := Kebab(q[1..]);
      CamelOfKebab(q[1..]);
      if IsUpper(q[0]) {
        var s := ['-', ToLower(q[0])] + k;
        assert s[2..] == k;
      } else {
        var s := [q[0]] + k;
        assert s[1..] == k;
        assert |q| >= 2 ==> !(q[0] == '-' && IsLower(q[1]));
      }
      assert [q[0]] + q[1..] == q;
    }
  }

  /** One entry of the style object. */
  function Entry(d: Declaration): string {
    CamelProperty(d.property) + ": \"" + d.value + "\""
  }

  function Entries(ds: seq<Declaration>): (es: seq<string>)
    ensures |es| == |ds| && forall k :: 0 <= k < |ds| ==> es[k] == Entry(ds[k])
  {
    seq(|ds|, k requires 0 <= k < |ds| => Entry(ds[k]))
  }

  /** `cssToObject`. */
  function CssToObject(css: string): string {
    var clean := Trim(StripQuotes(css));
    if clean == [] then "{}"
    else "{" + JoinAll(Entries(Declarations(Split(clean, ";"))), ", ") + "}"
  }

  /** The early `{}` for blank text is what the general path gives too: the
      style object always holds exactly the entries of the parsed
      declarations. */
  lemma CssToObjectIsEntries(css: string)
    ensures CssToObject(css) ==
      "{" + JoinAll(Entries(Declarations(Split(Trim(StripQuotes(css)), ";"))), ", ") + "}"
  {
    var clean := Trim(StripQuotes(css));
    if clean == [] {
      assert Split(clean, ";") == [[]];
      assert Trim([]) == [];
      assert Declarations([[]]) == [];
    }
  }

  /** Quotes around the attribute value make no difference. */
  lemma CssOfQuoted(body: string)
    ensures CssToObject("\"" + body + "\"") == CssToObject(body)
  {
    var q := "\"";
    StripQuotesAppend(q + body, q);
    StripQuotesAppend(q, body);
    assert StripQuotes(q) == [];
    assert StripQuotes(q + body + q) == StripQuotes(body);
  }

  /** A declaration is read from its first two pieces between colons only. */
  lemma FirstTwoColonPieces(p: string, v: string, extra: string)
    requires Excludes(p, ':') && Excludes(v, ':')
    ensures ParseDeclaration(p + ":" + v + ":" + extra) == ParseDeclaration(p + ":" + v)
  {
    var long := p + ":" + v + ":" + extra;
    var short := p + ":" + v;
    assert long == p + [':'] + (v + [':'] + extra);
    SplitAtFirst(p, ':', v + [':'] + extra);
    SplitAtFirst(v, ':', extra);
    ParseOfParts(long, p, v);
    assert short == p + [':'] + v;
    SplitAtFirst(p, ':', v);
    SplitWithout(v, ':');
    ParseOfParts(short, p, v);
  }

  /** `ParseDeclaration` reads only the first two pieces between colons. */
  lemma ParseOfParts(piece: string, a: string, b: string)
    requires var parts := Split(piece, ":"); |parts| >= 2 && parts[0] == a && parts[1] == b
    ensures ParseDeclaration(piece) ==
      if Trim(a) == [] || Trim(b) == [] then None else Some(Declaration(Trim(a), Trim(b)))
  {
  }

  /** A piece without a colon has no value and is dropped. */
  lemma MissingValueDropped(piece: string)
    requires Excludes(piece, ':')
    ensures ParseDeclaration(piece) == None
  {
    SplitWithout(piece, ':');
  }

  /** A declaration written back as CSS text, the way a style attribute
      spells it. */
  function RenderDeclaration(d: Declaration): string {
    d.property + ":" + d.value
  }

  function RenderCss(ds: seq<Declaration>): string {
    JoinAll(RenderAll(ds), ";")
  }

  /** The declarations that CSS text can carry through `cssToObject`. */
  predicate Renderable(d: Declaration) {
    Parsed(d) && QuoteFree(d.property) && QuoteFree(d.value) &&
    Excludes(d.property, ':') && Excludes(d.value, ':') &&
    Excludes(d.property, ';') && Excludes(d.value, ';')
  }

  lemma ParseRendered(d: Declaration)
    requires Renderable(d)
    ensures ParseDeclaration(RenderDeclaration(d)) == Some(d)
    ensures Trim(RenderDeclaration(d)) != []
  {
    var p := d.property;
    var v := d.value;
    SplitAtFirst(p, ':', v);
    assert p + ":" + v == p + [':'] + v;
    SplitWithout(v, ':');
    TrimOfTrimmed(p);
    TrimOfTrimmed(v);
    var s := RenderDeclaration(d);
    assert s[0] == p[0] && !IsSpace(s[0]);
    TrimEmptyIff(s);
  }

  function RenderAll(ds: seq<Declaration>): (pieces: seq<string>)
    ensures |pieces| == |ds| && forall k :: 0 <= k < |ds| ==> pieces[k] == RenderDeclaration(ds[k])
  {
    seq(|ds|, k requires 0 <= k < |ds| => RenderDeclaration(ds[k]))
  }

  lemma {:induction false} DeclarationsOfRendered(ds: seq<Declaration>)
    requires forall k :: 0 <= k < |ds| ==> Renderable(ds[k])
    ensures Declarations(RenderAll(ds)) == ds
    decreases |ds|
  {
    if ds != [] {
      var pieces := RenderAll(ds);
      var tail := ds[1..];
      assert pieces[1..] == RenderAll(tail);
      ParseRendered(ds[0]);
      DeclarationsOfParsed(pieces, ds[0]);
      assert forall k :: 0 <= k < |tail| ==> tail[k] == ds[k + 1];
      DeclarationsOfRendered(tail);
      assert [ds[0]] + ds[1..] == ds;
    }
  }

  lemma DeclarationsOfParsed(pieces: seq<string>, d: Declaration)
    requires pieces != [] && Trim(pieces[0]) != [] && ParseDeclaration(pieces[0]) == Some(d)
    ensures Declarations(pieces) == [d] + Declarations(pieces[1..])
  {
  }

  lemma {:induction false} JoinEnds(parts: seq<string>, sep: string)
    requires |parts| >= 1 && forall k :: 0 <= k < |parts| ==> parts[k] != []
    ensures var j := Join(parts, sep); j != [] && j[0] == parts[0][0] && j[|j| - 1] == parts[|parts| - 1][|parts[|parts| - 1]| - 1]
    decreases |parts|
  {
    if |parts| > 1 {
      JoinEnds(parts[1..], sep);
    }
  }

  lemma {:induction false} JoinQuoteFree(parts: seq<string>, sep: string)
    requires |parts| >= 1 && QuoteFree(sep)
    requires forall k :: 0 <= k < |parts| ==> QuoteFree(parts[k])
    ensures QuoteFree(Join(parts, sep))
    decreases |parts|
  {
    if |parts| > 1 {
      JoinQuoteFree(parts[1..], sep);
      var j := Join(parts, sep);
      var rest := Join(parts[1..], sep);
      assert j == parts[0] + sep + rest;
      forall i | 0 <= i < |j| ensures !IsQuote(j[i]) {
        if i < |parts[0]| { assert j[i] == parts[0][i]; }
        else if i < |parts[0]| + |sep| { assert j[i] == sep[i - |parts[0]|]; }
        else { assert j[i] == rest[i - |parts[0]| - |sep|]; }
      }
    }
  }

  /** A rendered declaration holds no quote and no semicolon, and neither
      starts nor ends with white space. */
  lemma RenderedClean(d: Declaration)
    requires Renderable(d)
    ensures var s := RenderDeclaration(d);
      QuoteFree(s) && Excludes(s, ';') && s != [] && !IsSpace(s[0]) && !IsSpace(s[|s| - 1])
  {
    var s := RenderDeclaration(d);
    forall i | 0 <= i < |s| ensures !IsQuote(s[i]) && s[i] != ';' {
      if i < |d.property| { assert s[i] == d.property[i]; }
      else if i > |d.property| { assert s[i] == d.value[i - |d.property| - 1]; }
    }
    assert s[0] == d.property[0];
    assert s[|s| - 1] == d.value[|d.value| - 1];
  }

  /** Round trip: CSS text written from renderable declarations is read back
      as exactly those declarations, so the style object lists them in
      order. */
  lemma CssRoundTrip(ds: seq<Declaration>)
    requires forall k :: 0 <= k < |ds| ==> Renderable(ds[k])
    ensures CssToObject(RenderCss(ds)) == "{" + JoinAll(Entries(ds), ", ") + "}"
  {
    var pieces := RenderAll(ds);
    var text := RenderCss(ds);
    if ds == [] {
      assert text == [];
      assert StripQuotes([]) == [] && Trim([]) == [];
    } else {
      assert text == Join(pieces, ";");
      forall k | 0 <= k < |pieces| ensures QuoteFree(pieces[k]) && Excludes(pieces[k], ';') {
        RenderedClean(ds[k]);
      }
      JoinQuoteFree(pieces, ";");
      StripQuotesOfQuoteFree(text);
      RenderedClean(ds[0]);
      RenderedClean(ds[|ds| - 1]);
      JoinEnds(pieces, ";");
      assert Trimmed(text);
      TrimOfTrimmed(text);
      SplitOfJoin(pieces, ';');
      DeclarationsOfRendered(ds);
      CssOfClean(text, ds);
    }
  }

  /** Text that has no quote and no surrounding white space is split at
      `;` directly. */
  lemma CssOfClean(text: string, ds: seq<Declaration>)
    requires text != [] && StripQuotes(text) == text && Trim(text) == text
    requires Declarations(Split(text, ";")) == ds
    ensures CssToObject(text) == "{" + JoinAll(Entries(ds), ", ") + "}"
  {
  }

  /** Every character of a concatenation has a property both halves have. */
  lemma AllOfAppend(x: string, y: string, p: char -> bool)
    requires forall i :: 0 <= i < |x| ==> p(x[i])
    requires forall i :: 0 <= i < |y| ==> p(y[i])
    ensures forall i :: 0 <= i < |x + y| ==> p((x + y)[i])
  {
    forall i | 0 <= i < |x + y| ensures p((x + y)[i]) {
      if i < |x| { assert (x + y)[i] == x[i]; } else { assert (x + y)[i] == y[i - |x|]; }
    }
  }

  /** White space around a trimmed text may be any character the text
      itself may hold. */
  lemma PaddedAll(a: string, x: string, b: string, p: char -> bool)
    requires AllSpace(a) && AllSpace(b) && forall c :: IsSpace(c) ==> p(c)
    requires forall i :: 0 <= i < |x| ==> p(x[i])
    ensures forall i :: 0 <= i < |a + x + b| ==> p((a + x + b)[i])
  {
    AllOfAppend(a, x, p);
    AllOfAppend(a + x, b, p);
  }

  /** White space a style attribute may put around each half of a
      declaration. */
  datatype Spacing = Spacing(before: string, beforeColon: string, afterColon: string, after: string)

  predicate Blank(sp: Spacing) {
    AllSpace(sp.before) && AllSpace(sp.beforeColon) && AllSpace(sp.afterColon) && AllSpace(sp.after)
  }

  function SpacedDeclaration(d: Declaration, sp: Spacing): string {
    sp.before + d.property + sp.beforeColon + ":" + sp.afterColon + d.value + sp.after
  }

  /** The two halves of a spaced declaration, around its colon. */
  lemma SpacedHalves(d: Declaration, sp: Spacing)
    requires Renderable(d) && Blank(sp)
    ensures var l := sp.before + d.property + sp.beforeColon;
      var r := sp.afterColon + d.value + sp.after;
      SpacedDeclaration(d, sp) == l + [':'] + r &&
      (forall i :: 0 <= i < |l| ==> !IsQuote(l[i]) && l[i] != ';' && l[i] != ':') &&
      (forall i :: 0 <= i < |r| ==> !IsQuote(r[i]) && r[i] != ';' && r[i] != ':')
  {
    var p := (c: char) => !IsQuote(c) && c != ';' && c != ':';
    PaddedAll(sp.before, d.property, sp.beforeColon, p);
    PaddedAll(sp.afterColon, d.value, sp.after, p);
  }

  /** White space around either half of a declaration is insignificant. */
  lemma ParseSpaced(d: Declaration, sp: Spacing)
    requires Renderable(d) && Blank(sp)
    ensures ParseDeclaration(SpacedDeclaration(d, sp)) == Some(d)
    ensures Trim(SpacedDeclaration(d, sp)) != []
  {
    var l := sp.before + d.property + sp.beforeColon;
    var r := sp.afterColon + d.value + sp.after;
    var s := SpacedDeclaration(d, sp);
    SpacedHalves(d, sp);
    SplitAtFirst(l, ':', r);
    SplitWithout(r, ':');
    ParseOfParts(s, l, r);
    TrimAround(sp.before, d.property, sp.beforeColon);
    TrimAround(sp.afterColon, d.value, sp.after);
    assert s[|sp.before|] == d.property[0] && !IsSpace(s[|sp.before|]);
    TrimEmptyIff(s);
  }

  /** A spaced declaration holds no quote and no semicolon; with no white
      space before it, it starts with its property, and with none after it,
      it ends with its value. */
  lemma SpacedClean(d: Declaration, sp: Spacing)
    requires Renderable(d) && Blank(sp)
    ensures var s := SpacedDeclaration(d, sp);
      QuoteFree(s) && Excludes(s, ';') && s != [] &&
      (sp.before == [] ==> !IsSpace(s[0])) && (sp.after == [] ==> !IsSpace(s[|s| - 1]))
  {
    var l := sp.before + d.property + sp.beforeColon;
    var r := sp.afterColon + d.value + sp.after;
    var s := SpacedDeclaration(d, sp);
    SpacedHalves(d, sp);
    AllOfAppend(l + [':'], r, (c: char) => !IsQuote(c) && c != ';');
    if sp.before == [] {
      assert s[0] == d.property[0];
    }
    if sp.after == [] {
      assert s[|s| - 1] == d.value[|d.value| - 1];
    }
  }

  function SpacedAll(ds: seq<Declaration>, sps: seq<Spacing>): (pieces: seq<string>)
    requires |sps| == |ds|
    ensures |pieces| == |ds|
    ensures forall k :: 0 <= k < |ds| ==> pieces[k] == SpacedDeclaration(ds[k], sps[k])
  {
    seq(|ds|, k requires 0 <= k < |ds| => SpacedDeclaration(ds[k], sps[k]))
  }

  lemma DeclarationsOfSpaced(ds: seq<Declaration>, sps: seq<Spacing>)
    requires |sps| == |ds|
    requires forall k :: 0 <= k < |ds| ==> Renderable(ds[k]) && Blank(sps[k])
    ensures Declarations(SpacedAll(ds, sps)) == ds
  {
    var pieces := SpacedAll(ds, sps);
    DeclarationsOfSpacedFrom(ds, sps, 0);
    assert pieces[0..] == pieces && ds[0..] == ds;
  }

  lemma {:induction false} DeclarationsOfSpacedFrom(ds: seq<Declaration>, sps: seq<Spacing>, i: nat)
    requires |sps| == |ds| && i <= |ds|
    requires forall k :: 0 <= k < |ds| ==> Renderable(ds[k]) && Blank(sps[k])
    ensures Declarations(SpacedAll(ds, sps)[i..]) == ds[i..]
    decreases |ds| - i
  {
    if i < |ds| {
      var pieces := SpacedAll(ds, sps);
      var here := pieces[i..];
      ParseSpaced(ds[i], sps[i]);
      assert here[0] == pieces[i] && here[1..] == pieces[i + 1..];
      DeclarationsOfParsed(here, ds[i]);
      DeclarationsOfSpacedFrom(ds, sps, i + 1);
      ConsSlice(ds, i);
    }
  }

  lemma ConsSlice(ds: seq<Declaration>, i: nat)
    requires i < |ds|
    ensures ds[i..] == [ds[i]] + ds[i + 1..]
  {
  }

  /** CSS text the way a style attribute may spell it: the declarations with
      white space around each half, joined by `;`, and closed by one more
      `;` when `closed` holds. */
  function SpacedCss(ds: seq<Declaration>, sps: seq<Spacing>, closed: bool): string
    requires |sps| == |ds|
  {
    JoinAll(SpacedAll(ds, sps) + (if closed then [[]] else []), ";")
  }

  /** White space around the whole attribute text is insignificant. */
  lemma CssPadded(a: string, t: string, b: string)
    requires AllSpace(a) && AllSpace(b)
    ensures CssToObject(a + t + b) == CssToObject(t)
  {
    StripQuotesAppend(a + t, b);
    StripQuotesAppend(a, t);
    StripQuotesOfQuoteFree(a);
    StripQuotesOfQuoteFree(b);
    TrimPadded(a, StripQuotes(t), b);
  }

  /** The spaced declarations joined by `;`: quote-free, starting with the
      first property, and ending with the last value when nothing follows
      it. */
  lemma SpacedBody(ds: seq<Declaration>, sps: seq<Spacing>)
    requires |sps| == |ds| && ds != []
    requires forall k :: 0 <= k < |ds| ==> Renderable(ds[k]) && Blank(sps[k])
    requires sps[0].before == []
    ensures var body := Join(SpacedAll(ds, sps), ";");
      body != [] && QuoteFree(body) && !IsSpace(body[0]) &&
      (sps[|ds| - 1].after == [] ==> !IsSpace(body[|body| - 1]))
  {
    var pieces := SpacedAll(ds, sps);
    forall k | 0 <= k < |pieces| ensures QuoteFree(pieces[k]) && pieces[k] != [] {
      SpacedClean(ds[k], sps[k]);
    }
    SpacedClean(ds[0], sps[0]);
    SpacedClean(ds[|ds| - 1], sps[|ds| - 1]);
    JoinEnds(pieces, ";");
    JoinQuoteFree(pieces, ";");
  }

  /** The joined spaced declarations split back into the same pieces, with
      or without a closing `;`. */
  lemma SpacedBodySplit(ds: seq<Declaration>, sps: seq<Spacing>)
    requires |sps| == |ds| && ds != []
    requires forall k :: 0 <= k < |ds| ==> Renderable(ds[k]) && Blank(sps[k])
    ensures var pieces := SpacedAll(ds, sps);
      var body := Join(pieces, ";");
      Split(body, ";") == pieces && Split(body + ";", ";") == pieces + [[]]
  {
    var pieces := SpacedAll(ds, sps);
    var longer := pieces + [[]];
    forall k | 0 <= k < |longer| ensures Excludes(longer[k], ';') {
      if k < |pieces| {
        SpacedClean(ds[k], sps[k]);
        assert longer[k] == pieces[k];
      }
    }
    SplitOfJoin(pieces, ';');
    SplitOfJoin(longer, ';');
    JoinEmptyLast(pieces, ";");
  }

  /** Round trip with white space: however the declarations are spaced
      around their halves and around the whole text, and whether or not
      the text ends with `;`, the style object lists exactly those
      declarations in order. White space right before the first property,
      or right after the last value of an unclosed text, is part of `a` or
      `b`. */
  lemma CssSpacedRoundTrip(ds: seq<Declaration>, sps: seq<Spacing>, closed: bool, a: string, b: string)
    requires |sps| == |ds|
    requires forall k :: 0 <= k < |ds| ==> Renderable(ds[k]) && Blank(sps[k])
    requires ds != [] ==> sps[0].before == [] && (closed || sps[|ds| - 1].after == [])
    requires AllSpace(a) && AllSpace(b)
    ensures CssToObject(a + SpacedCss(ds, sps, closed) + b) == "{" + JoinAll(Entries(ds), ", ") + "}"
  {
    if ds == [] {
      EmptySpacedRoundTrip(sps, closed, a, b);
    } else {
      var text := SpacedCss(ds, sps, closed);
      CssPadded(a, text, b);
      SpacedCssClean(ds, sps, closed);
      CssOfClean(text, ds);
    }
  }

  /** With no declarations the text is white space and the object is `{}`. */
  lemma EmptySpacedRoundTrip(sps: seq<Spacing>, closed: bool, a: string, b: string)
    requires sps == [] && AllSpace(a) && AllSpace(b)
    ensures CssToObject(a + SpacedCss([], sps, closed) + b) == "{}"
  {
    var text := SpacedCss([], sps, closed);
    EmptySpacedCss(sps, closed);
    CssPadded(a, text, b);
    CssOfEmpty();
  }

  lemma CssOfEmpty()
    ensures CssToObject([]) == "{}"
  {
    assert StripQuotes([]) == [] && Trim([]) == [];
  }

  lemma EmptySpacedCss(sps: seq<Spacing>, closed: bool)
    requires sps == []
    ensures SpacedCss([], sps, closed) == []
  {
    assert SpacedAll([], sps) == [];
    if closed {
      assert SpacedAll([], sps) + [[]] == [[]];
    } else {
      assert SpacedAll([], sps) + [] == [];
    }
  }

  /** The spaced text has no quote and no surrounding white space, and its
      pieces between semicolons give back the declarations. */
  lemma SpacedCssClean(ds: seq<Declaration>, sps: seq<Spacing>, closed: bool)
    requires |sps| == |ds| && ds != []
    requires forall k :: 0 <= k < |ds| ==> Renderable(ds[k]) && Blank(sps[k])
    requires sps[0].before == [] && (closed || sps[|ds| - 1].after == [])
    ensures var text := SpacedCss(ds, sps, closed);
      text != [] && StripQuotes(text) == text && Trim(text) == text &&
      Declarations(Split(text, ";")) == ds
  {
    var body := Join(SpacedAll(ds, sps), ";");
    SpacedBody(ds, sps);
    SpacedCssShape(ds, sps, closed);
    CleanText(body, closed);
    SpacedCssDeclarations(ds, sps, closed);
  }

  /** Quote-free text that starts and ends with something other than white
      space, possibly followed by one `;`, is left alone by quote stripping
      and trimming. */
  lemma CleanText(body: string, closed: bool)
    requires body != [] && QuoteFree(body) && !IsSpace(body[0])
    requires !closed ==> !IsSpace(body[|body| - 1])
    ensures var t := body + (if closed then ";" else []);
      t != [] && StripQuotes(t) == t && Trim(t) == t
  {
    var tail: string := if closed then ";" else [];
    var t := body + tail;
    StripQuotesAppend(body, tail);
    StripQuotesOfQuoteFree(body);
    assert StripQuotes(tail) == tail;
    TextEnds(body, tail, closed);
    TrimOfTrimmed(t);
  }

  lemma SpacedCssDeclarations(ds: seq<Declaration>, sps: seq<Spacing>, closed: bool)
    requires |sps| == |ds| && ds != []
    requires forall k :: 0 <= k < |ds| ==> Renderable(ds[k]) && Blank(sps[k])
    ensures Declarations(Split(SpacedCss(ds, sps, closed), ";")) == ds
  {
    var pieces := SpacedAll(ds, sps);
    var closing: seq<string> := if closed then [[]] else [];
    SpacedCssShape(ds, sps, closed);
    DeclarationsAppend(pieces, closing);
    DeclarationsOfSpaced(ds, sps);
    assert Declarations(closing) == [] by {
      assert Trim([]) == [];
    }
    assert ds + [] == ds;
  }

  /** The spaced text is the joined declarations and, when closed, one `;`. */
  lemma SpacedCssShape(ds: seq<Declaration>, sps: seq<Spacing>, closed: bool)
    requires |sps| == |ds| && ds != []
    requires forall k :: 0 <= k < |ds| ==> Renderable(ds[k]) && Blank(sps[k])
    ensures var pieces := SpacedAll(ds, sps);
      var body := Join(pieces, ";");
      SpacedCss(ds, sps, closed) == body + (if closed then ";" else []) &&
      Split(SpacedCss(ds, sps, closed), ";") == pieces + (if closed then [[]] else [])
  {
    var pieces := SpacedAll(ds, sps);
    SpacedBodySplit(ds, sps);
    if closed {
      JoinEmptyLast(pieces, ";");
    } else {
      assert pieces + [] == pieces;
      assert Join(pieces, ";") + [] == Join(pieces, ";");
    }
  }

  /** The text neither starts nor ends with white space. */
  lemma TextEnds(body: string, tail: string, closed: bool)
    requires body != [] && !IsSpace(body[0]) && tail == (if closed then ";" else [])
    requires !closed ==> !IsSpace(body[|body| - 1])
    ensures Trimmed(body + tail)
  {
    var t := body + tail;
    assert t[0] == body[0];
    if closed {
      assert t[|t| - 1] == ';';
    } else {
      assert t == body;
    }
  }

  /** `cssToObject('"color: red;"')` is `{color: "red"}`. */
  lemma ColorRed(css: string, property: string, value: string)
    requires property == "color" && value == "red"
    requires css == "\"" + property + ": " + value + ";\""
    ensures CssToObject(css) == "{" + property + ": \"" + value + "\"}"
  {
    var d := Declaration(property, value);
    var sp := Spacing([], [], " ", []);
    var body := SpacedCss([d], [sp], true);
    ColorRedText(property, value, d, sp);
    assert css == "\"" + body + "\"";
    CssOfQuoted(body);
    ColorRedParts(property, value, d, sp);
    CssSpacedRoundTrip([d], [sp], true, [], []);
    assert [] + body + [] == body;
    ColorRedEntry(property, value, d);
  }

  lemma ColorRedText(property: string, value: string, d: Declaration, sp: Spacing)
    requires d == Declaration(property, value) && sp == Spacing([], [], " ", [])
    ensures SpacedCss([d], [sp], true) == property + ": " + value + ";"
  {
    var piece := SpacedDeclaration(d, sp);
    assert SpacedAll([d], [sp]) == [piece];
    assert piece == property + ": " + value;
    JoinEmptyLast([piece], ";");
    assert [piece] + [[]] == [piece, []];
  }

  lemma ColorRedParts(property: string, value: string, d: Declaration, sp: Spacing)
    requires property == "color" && value == "red"
    requires d == Declaration(property, value) && sp == Spacing([], [], " ", [])
    ensures Renderable(d) && Blank(sp)
  {
  }

  lemma ColorRedEntry(property: string, value: string, d: Declaration)
    requires property == "color" && d == Declaration(property, value)
    ensures "{" + JoinAll(Entries([d]), ", ") + "}" == "{" + property + ": \"" + value + "\"}"
  {
    CamelOfDashFree(property);
    assert Entries([d]) == [Entry(d)];
    assert JoinAll([Entry(d)], ", ") == Entry(d);
  }

  /** End of the white space that starts at `from`. */
  function SpaceEnd(s: string, from: nat): (r: nat)
    requires from <= |s|
    ensures from <= r <= |s|
    ensures forall k :: from <= k < r ==> IsSpace(s[k])
    ensures r == |s| || !IsSpace(s[r])
    decreases |s| - from
  {
    if from == |s| || !IsSpace(s[from]) then from else SpaceEnd(s, from + 1)
  }

  /** `.*?"` from `from`: the position of the first `"`, unless a line
      terminator or the end of the text comes first. */
  function QuoteEnd(s: string, from: nat): (r: Option<nat>)
    requires from <= |s|
    ensures r.Some? ==> from <= r.value < |s| && s[r.value] == '"'
    ensures r.Some? ==> forall k :: from <= k < r.value ==> s[k] != '"' && !IsLineTerminator(s[k])
    decreases |s| - from
  {
    if from == |s| || IsLineTerminator(s[from]) then None
    else if s[from] == '"' then Some(from)
    else QuoteEnd(s, from + 1)
  }

  /** A match of `style\s*=\s*(".*?")`, ignoring case, at the start of the
      text: where it ends and the quoted value it captured. */
  datatype StyleMatch = StyleMatch(end: nat, quoted: string)

  /** `style`, in any case, then white space, `=` at `i`, white space, `"`
      at `j`, and at `k` the first `"` after it with no line terminator
      between them. */
  predicate StyleShape(s: string, i: nat, j: nat, k: nat) {
    5 <= i < j < k < |s| && StartsWithIgnoreCase(s, "style") &&
    (forall t :: 5 <= t < i ==> IsSpace(s[t])) &&
    (forall t :: i < t < j ==> IsSpace(s[t])) &&
    s[i] == '=' && s[j] == '"' && s[k] == '"' &&
    (forall t :: j < t < k ==> s[t] != '"' && !IsLineTerminator(s[t]))
  }

  function StyleMatchAt(s: string): (r: Option<StyleMatch>)
    ensures r.Some? ==> StartsWithIgnoreCase(s, "style") && 5 < r.value.end <= |s|
    ensures r.Some? ==>
      5 <= |s| && SpaceEnd(s, 5) < |s| &&
      var i := SpaceEnd(s, 5);
      var j := SpaceEnd(s, i + 1);
      StyleShape(s, i, j, r.value.end - 1) && r.value.quoted == s[j..r.value.end]
  {
    if !StartsWithIgnoreCase(s, "style") then None
    else
      var i := SpaceEnd(s, 5);
      if i == |s| || s[i] != '=' then None
      else
        var j := SpaceEnd(s, i + 1);
        if j == |s| || s[j] != '"' then None
        else match QuoteEnd(s, j + 1)
          case None => None
          case Some(k) =>
            assert StyleShape(s, i, j, k);
            Some(StyleMatch(k + 1, s[j..k + 1]))
  }

  /** `convertStyleToObject`. */
  function ConvertStyleToObject(html: string): string
    decreases |html|
  {
    if html == [] then []
    else match StyleMatchAt(html)
      case Some(m) => "style={" + CssToObject(m.quoted) + "}" + ConvertStyleToObject(html[m.end..])
      case None => [html[0]] + ConvertStyleToObject(html[1..])
  }

  /** Text in which `style` never occurs, in any case, is left alone. */
  lemma {:induction false} StyleAbsent(html: string)
    requires !Contains(html, "style", true)
    ensures ConvertStyleToObject(html) == html
    decreases |html|
  {
    if html != [] {
      StyleAbsent(html[1..]);
      assert [html[0]] + html[1..] == html;
    }
  }

  lemma {:induction false} QuoteEndOver(s: string, start: nat, stop: nat)
    requires start <= stop < |s| && s[stop] == '"'
    requires forall k :: start <= k < stop ==> s[k] != '"' && !IsLineTerminator(s[k])
    ensures QuoteEnd(s, start) == Some(stop)
    decreases stop - start
  {
    if start < stop {
      QuoteEndOver(s, start + 1, stop);
    }
  }

  predicate AllSpace(s: string) {
    forall i :: 0 <= i < |s| ==> IsSpace(s[i])
  }

  /** The match at the front, located by the positions of `=` (i), of the
      opening quote (j) and of the closing quote (k). */
  lemma StyleMatchBetween(s: string, i: nat, j: nat, k: nat)
    requires StyleShape(s, i, j, k)
    ensures StyleMatchAt(s) == Some(StyleMatch(k + 1, s[j..k + 1]))
  {
    assert SpaceEnd(s, 5) == i;
    assert SpaceEnd(s, i + 1) == j;
    QuoteEndOver(s, j + 1, k);
  }

  /** A style attribute whose value is a double-quoted text on one line is
      replaced by `style={...}` holding the style object of that text; the
      rest of the document is converted after it. */
  lemma StyleAttributeRewritten(w: string, sp1: string, sp2: string, body: string, rest: string)
    requires |w| == 5 && Lower(w) == "style" && AllSpace(sp1) && AllSpace(sp2)
    requires forall k :: 0 <= k < |body| ==> body[k] != '"' && !IsLineTerminator(body[k])
    ensures ConvertStyleToObject(w + sp1 + "=" + sp2 + "\"" + body + "\"" + rest) ==
      "style={" + CssToObject(body) + "}" + ConvertStyleToObject(rest)
  {
    var s := w + sp1 + "=" + sp2 + "\"" + body + "\"" + rest;
    var e := StyleAttributeMatched(s, w, sp1, sp2, body, rest);
    CssOfQuoted(body);
  }

  /** Where the style attribute of `StyleAttributeRewritten` is matched. */
  lemma StyleAttributeMatched(s: string, w: string, sp1: string, sp2: string, body: string, rest: string)
      returns (e: nat)
    requires s == w + sp1 + "=" + sp2 + "\"" + body + "\"" + rest
    requires |w| == 5 && Lower(w) == "style" && AllSpace(sp1) && AllSpace(sp2)
    requires forall k :: 0 <= k < |body| ==> body[k] != '"' && !IsLineTerminator(body[k])
    ensures e <= |s| && StyleMatchAt(s) == Some(StyleMatch(e, "\"" + body + "\"")) && s[e..] == rest
  {
    var i := 5 + |sp1|;
    var j := i + 1 + |sp2|;
    var k := j + 1 + |body|;
    StyleLayout(s, w, sp1, sp2, body, rest);
    StyleMatchBetween(s, i, j, k);
    e := k + 1;
  }

  /** Where the pieces of a style attribute sit in the text. */
  lemma StyleLayout(s: string, w: string, sp1: string, sp2: string, body: string, rest: string)
    requires s == w + sp1 + "=" + sp2 + "\"" + body + "\"" + rest
    requires |w| == 5 && Lower(w) == "style" && AllSpace(sp1) && AllSpace(sp2)
    requires forall k :: 0 <= k < |body| ==> body[k] != '"' && !IsLineTerminator(body[k])
    ensures var i := 5 + |sp1|; var j := i + 1 + |sp2|; var k := j + 1 + |body|;
      k < |s| && StartsWithIgnoreCase(s, "style") &&
      (forall t :: 5 <= t < i ==> IsSpace(s[t])) &&
      (forall t :: i < t < j ==> IsSpace(s[t])) &&
      s[i] == '=' && s[j] == '"' && s[k] == '"' &&
      (forall t :: j < t < k ==> s[t] != '"' && !IsLineTerminator(s[t])) &&
      s[j..k + 1] == "\"" + body + "\"" && s[k + 1..] == rest
  {
    var i := 5 + |sp1|;
    var j := i + 1 + |sp2|;
    var k := j + 1 + |body|;
    assert s[..5] == w;
    forall t | 5 <= t < i ensures IsSpace(s[t]) { assert s[t] == sp1[t - 5]; }
    forall t | i < t < j ensures IsSpace(s[t]) { assert s[t] == sp2[t - i - 1]; }
    forall t | j < t < k ensures s[t] != '"' && !IsLineTerminator(s[t]) { assert s[t] == body[t - j - 1]; }
    assert s[j..k + 1] == "\"" + body + "\"";
    assert s[k + 1..] == rest;
  }
}

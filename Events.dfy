/** `convertEventAttributesToCamelCase` (index.ts:47-49) with its callback
    `eventAttributesCallback` (index.ts:28-32): every inline handler
    `onclick="f()"` becomes the JSX attribute `onClick={f()}`.

    The pattern is `\bon` followed by at least one word character, `=`, a
    quote of either kind, a non-empty run of characters that are not
    quotes, and a quote of either kind. Both runs are maximal: giving back a
    character would leave a word character where `=` is needed, or a
    non-quote where the closing quote is needed, so the match at a place is
    unique. The scan walks the suffixes of the text and carries whether the
    character before the suffix is a word character, which is all that `\b`
    looks at. */
module Events {
  import opened Chars
  import opened Wrappers

  /** The end of the run of word characters that starts at `i`. */
  function WordEnd(s: string, i: nat): (e: nat)
    requires i <= |s|
    ensures i <= e <= |s|
    ensures forall k :: i <= k < e ==> IsWordChar(s[k])
    ensures e == |s| || !IsWordChar(s[e])
    decreases |s| - i
  {
    if i < |s| && IsWordChar(s[i]) then WordEnd(s, i + 1) else i
  }

  /** The end of the run of characters other than quotes that starts at `i`. */
  function QuoteFreeEnd(s: string, i: nat): (e: nat)
    requires i <= |s|
    ensures i <= e <= |s|
    ensures forall k :: i <= k < e ==> !IsQuote(s[k])
    ensures e == |s| || IsQuote(s[e])
    decreases |s| - i
  {
    if i < |s| && !IsQuote(s[i]) then QuoteFreeEnd(s, i + 1) else i
  }

  /** A handler attribute at the front: the name is `s[..nameEnd]`, the `=`
      is at `nameEnd`, the value is `s[nameEnd + 2..valueEnd]` and the
      closing quote is at `valueEnd`. */
  datatype Span = Span(nameEnd: nat, valueEnd: nat)

  /** After the name, ending at `e`: `=`, a quote, a non-empty quote-free
      value and the closing quote, whose position is returned. */
  function ValueMatch(s: string, e: nat): (r: Option<nat>)
    requires e <= |s|
    ensures r.Some? ==> e + 2 < r.value < |s|
    ensures r.Some? ==> s[e] == '=' && IsQuote(s[e + 1]) && IsQuote(s[r.value])
    ensures r.Some? ==> forall k :: e + 2 <= k < r.value ==> !IsQuote(s[k])
  {
    if e + 1 < |s| && s[e] == '=' && IsQuote(s[e + 1]) then
      var v := QuoteFreeEnd(s, e + 2);
      if e + 2 < v < |s| then Some(v) else None
    else None
  }

  /** The match of the pattern at the front of `s`; `afterWord` tells whether
      the character before `s` is a word character, in which case `\b`
      fails. */
  function EventMatch(s: string, afterWord: bool): (r: Option<Span>)
    ensures r.Some? ==> !afterWord && |s| > 2 && s[0] == 'o' && s[1] == 'n'
    ensures r.Some? ==> 2 < r.value.nameEnd && r.value.nameEnd + 2 < r.value.valueEnd < |s|
    ensures r.Some? ==> forall k :: 2 <= k < r.value.nameEnd ==> IsWordChar(s[k])
    ensures r.Some? ==> s[r.value.nameEnd] == '=' && IsQuote(s[r.value.nameEnd + 1])
    ensures r.Some? ==> forall k :: r.value.nameEnd + 2 <= k < r.value.valueEnd ==> !IsQuote(s[k])
    ensures r.Some? ==> IsQuote(s[r.value.valueEnd])
  {
    if !afterWord && |s| >= 2 && s[0] == 'o' && s[1] == 'n' then
      var e := WordEnd(s, 2);
      if e == 2 then None
      else match ValueMatch(s, e)
        case None => None
        case Some(v) => Some(Span(e, v))
    else None
  }

  /** `eventAttributesCallback`: `on`, the third character of the name in
      upper case, the rest of the name, and the handler in braces. */
  function Callback(eventName: string, handler: string): string
    requires |eventName| > 2
  {
    "on" + [ToUpper(eventName[2])] + eventName[3..] + "={" + handler + "}"
  }

  /** The global replacement over the suffix `s`. After a replaced match the
      scan resumes behind the closing quote, which is not a word character. */
  function EventsOn(s: string, afterWord: bool): string
    decreases |s|
  {
    if s == [] then []
    else match EventMatch(s, afterWord)
      case Some(m) => Callback(s[..m.nameEnd], s[m.nameEnd + 2..m.valueEnd]) + EventsOn(s[m.valueEnd + 1..], false)
      case None => [s[0]] + EventsOn(s[1..], IsWordChar(s[0]))
  }

  /** `convertEventAttributesToCamelCase`. */
  function ConvertEventAttributesToCamelCase(html: string): string {
    EventsOn(html, false)
  }

  /** Text in which `on` never occurs is left as it is. */
  lemma {:induction false} EventsAbsent(s: string, afterWord: bool)
    requires forall k :: 0 <= k < |s| - 1 ==> !(s[k] == 'o' && s[k + 1] == 'n')
    ensures EventsOn(s, afterWord) == s
    decreases |s|
  {
    if s != [] {
      assert EventMatch(s, afterWord).None? by {
        if |s| >= 2 { assert !(s[0] == 'o' && s[1] == 'n'); }
      }
      forall k | 0 <= k < |s[1..]| - 1 ensures !(s[1..][k] == 'o' && s[1..][k + 1] == 'n') {
        assert s[1..][k] == s[k + 1] && s[1..][k + 1] == s[k + 2];
      }
      EventsAbsent(s[1..], IsWordChar(s[0]));
      assert [s[0]] + s[1..] == s;
    }
  }

  predicate WordChars(s: string) {
    forall k :: 0 <= k < |s| ==> IsWordChar(s[k])
  }

  lemma {:induction false} WordEndTo(s: string, k: nat, e: nat)
    requires k <= e < |s| && !IsWordChar(s[e])
    requires forall x :: k <= x < e ==> IsWordChar(s[x])
    ensures WordEnd(s, k) == e
    decreases e - k
  {
    if k < e {
      WordEndTo(s, k + 1, e);
    }
  }

  lemma {:induction false} QuoteFreeEndTo(s: string, k: nat, e: nat)
    requires k <= e < |s| && IsQuote(s[e])
    requires forall x :: k <= x < e ==> !IsQuote(s[x])
    ensures QuoteFreeEnd(s, k) == e
    decreases e - k
  {
    if k < e {
      QuoteFreeEndTo(s, k + 1, e);
    }
  }

  /** The pattern matches at the front, when `\b` holds, exactly where the
      text has the shape it describes. */
  lemma EventMatchOf(s: string, e: nat, v: nat)
    requires |s| > 2 && s[0] == 'o' && s[1] == 'n'
    requires 2 < e && e + 2 < v < |s|
    requires forall k :: 2 <= k < e ==> IsWordChar(s[k])
    requires s[e] == '=' && IsQuote(s[e + 1]) && IsQuote(s[v])
    requires forall k :: e + 2 <= k < v ==> !IsQuote(s[k])
    ensures EventMatch(s, false) == Some(Span(e, v))
  {
    WordEndTo(s, 2, e);
    QuoteFreeEndTo(s, e + 2, v);
  }

  /** `eventAttributesCallback` on the name `on` + `name`. */
  lemma CallbackOf(name: string, handler: string)
    requires name != []
    ensures Callback("on" + name, handler) == "on" + [ToUpper(name[0])] + name[1..] + "={" + handler + "}"
  {
    var n := "on" + name;
    assert n[2] == name[0] && n[3..] == name[1..];
  }

  /** One handler at the front, `on` + `name` = `"handler"` (either quote at
      either end), is rewritten and the scan goes on with the rest. */
  lemma EventAtFront(name: string, q1: char, handler: string, q2: char, rest: string)
    requires name != [] && WordChars(name) && IsQuote(q1) && IsQuote(q2)
    requires handler != [] && forall k :: 0 <= k < |handler| ==> !IsQuote(handler[k])
    ensures ConvertEventAttributesToCamelCase("on" + name + "=" + [q1] + handler + [q2] + rest) ==
      "on" + [ToUpper(name[0])] + name[1..] + "={" + handler + "}" + ConvertEventAttributesToCamelCase(rest)
  {
    var s := "on" + name + "=" + [q1] + handler + [q2] + rest;
    var e := 2 + |name|;
    var v := e + 2 + |handler|;
    assert s[e] == '=' && s[e + 1] == q1 && s[v] == q2;
    forall k | 2 <= k < e ensures IsWordChar(s[k]) {
      assert s[k] == name[k - 2];
    }
    forall k | e + 2 <= k < v ensures !IsQuote(s[k]) {
      assert s[k] == handler[k - e - 2];
    }
    assert s[..e] == "on" + name;
    assert s[e + 2..v] == handler;
    assert s[v + 1..] == rest;
    EventAtFrontStep(s, e, v);
    CallbackOf(name, handler);
  }

  lemma EventAtFrontStep(s: string, e: nat, v: nat)
    requires |s| > 2 && s[0] == 'o' && s[1] == 'n'
    requires 2 < e && e + 2 < v < |s|
    requires forall k :: 2 <= k < e ==> IsWordChar(s[k])
    requires s[e] == '=' && IsQuote(s[e + 1]) && IsQuote(s[v])
    requires forall k :: e + 2 <= k < v ==> !IsQuote(s[k])
    ensures ConvertEventAttributesToCamelCase(s) == Callback(s[..e], s[e + 2..v]) + ConvertEventAttributesToCamelCase(s[v + 1..])
  {
    EventMatchOf(s, e, v);
  }

  /** `[^"']+` stops at the first quote of either kind, so a handler that
      holds a quote of the other kind is cut there: `onclick="alert('x')"`
      becomes `onClick={alert(}x')"`. */
  lemma NestedQuoteCut(name: string, handler: string, tail: string)
    requires name == "click" && handler == "alert(" && tail == "x')\""
    ensures ConvertEventAttributesToCamelCase("on" + name + "=\"" + handler + "'" + tail) ==
      "on" + "C" + "lick" + "={" + handler + "}" + tail
  {
    assert "on" + name + "=\"" + handler + "'" + tail ==
      "on" + name + "=" + ['"'] + handler + ['\''] + tail;
    EventAtFront(name, '"', handler, '\'', tail);
    assert ToUpper(name[0]) == 'C' && name[1..] == "lick";
    EventsAbsent(tail, false);
  }

  /** `\b` is required before `on`: after a word character (`data-xonclick`,
      `button` + `on...`) the `on` is copied and the scan goes on past it with
      a word character behind it. */
  lemma WordBeforeBlocks(c: char, rest: string)
    requires IsWordChar(c)
    ensures ConvertEventAttributesToCamelCase([c] + "on" + rest) == [c] + "on" + EventsOn(rest, true)
  {
    var s := [c] + "on" + rest;
    var t := "on" + rest;
    var u := "n" + rest;
    var a := EventsOn(rest, true);
    assert u[0] == 'n' && u[1..] == rest;
    CopyStep(u, true);
    assert EventsOn(u, true) == "n" + a;
    assert t[0] == 'o' && t[1..] == u;
    CopyStep(t, true);
    assert EventsOn(t, true) == "on" + a;
    assert s[0] == c && s[1] == 'o' && s[1..] == t;
    CopyStep(s, false);
    assert [c] + ("on" + a) == [c] + "on" + a;
  }

  /** Where the pattern does not match, one character is copied. */
  lemma CopyStep(s: string, afterWord: bool)
    requires s != [] && EventMatch(s, afterWord).None?
    ensures EventsOn(s, afterWord) == [s[0]] + EventsOn(s[1..], IsWordChar(s[0]))
  {
  }
}

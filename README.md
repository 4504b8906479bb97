# html-to-jsx in Dafny

A model of the core of html-to-jsx: `index.ts`, the module that turns an
HTML fragment into JSX text, together with the tag checks and the HTML
validator it exports. Every regular expression of that file is modelled as a
hand-written scanner over `seq<char>`. Each scanner follows the
expression's own rules:

- `g`: every match, left to right, with no overlap;
- `i`: ASCII letters compared without case;
- `\s`: the JavaScript white-space set;
- `\b`: the previous character decides;
- `.`: stops at line terminators;
- `*?`: stops at the nearest terminator.

The property that matters most is in `HtmlValidator`. `validateHtml` is
written as a method with a tag stack, as in the source, and is proved equal to
a functional specification, `Validation`. That specification accepts a
document exactly when its effective open and close tags render a forest of
properly nested elements. `Nesting` holds the reference definition. It proves
that a stack machine which starts and ends empty accepts exactly the
renderings of element forests.

Modules, following the structure of `index.ts`:

- `Chars`: character classes, ASCII case mapping, `trim`.
- `Wrappers`: `Option`, `Result`, `Outcome`.
- `Replacing`: `replaceAll` with a string or a case-insensitive literal pattern; `split` and `join`.
- `Tags`: the two tag tables and `isTagClosed`, `validateInput`, `validateTag`, `validateTags`.
- `HtmlValidator`, `Nesting`: `validateHtml` and its reference definition.
- `SelfClosing`: `closeSelfClosingTags`.
- `Events`: `convertEventAttributesToCamelCase` with `eventAttributesCallback`.
- `Passes`: `wrapIntoDiv`, `convertClassToClassName`, `removeComments`, `imageFix`, `removeUnsuportedAttrs`, `removeInvalidTags`.
- `CamelCase`: `toCamelCase`.
- `Style`: `cssToObject`, `convertStyleToObject`.
- `Attributes`: `replaceAttributes`.
- `Pipeline`: `indentAllLines`, `convert`.

Behaviours the code has that a reader might not expect:

- `removeComments` is not idempotent. Deleting `<!---->` from `<!-<!---->--->` leaves `<!---->`, which a second run deletes.
- `imageFix` is not idempotent either: `<</img>/img>` becomes `</img>`.
- The `for=` rule of `replaceAttributes` is not whole-word, unlike the other five rules. `xfor=` becomes `xhtmlFor=`, and a second run turns `htmlFor=` into `htmlhtmlFor=`.
- `removeInvalidTags` is one scan with two alternatives, not two replacements in a row.
- An event handler cannot hold a quote of either kind. `[^"']+` stops at the first one, so `onclick="alert('x')"` becomes `onClick={alert(}x')"`.

## Model

| member | source | states |
|---|---|---|
| Tags.TablesDisjoint | index.ts:1-2 | no tag is both a void tag and a tag that requires closing |
| Tags.SelfClosingNoPrefix | index.ts:1 | no void tag name is a prefix of another, so the order of the alternation does not matter |
| SelfClosing.VoidTableUnique | index.ts:1 | the void tag names are lower-case words, none of which begins another |
| Passes.WrapIntoDiv | index.ts:4-6 | the result is `<div>`, then the input unchanged, then `</div>` |
| Style.StripQuotesChar | index.ts:9 | one character: a quote is dropped and any other character is kept |
| Style.StripQuotesAppend | index.ts:9 | stripping a concatenation strips each part, so quote stripping keeps exactly the non-quote characters, in order |
| Style.StripQuotesOfQuoteFree | index.ts:9 | text without quotes is left unchanged |
| Style.ParseDeclaration | index.ts:16-17 | a declaration is produced only with a non-empty trimmed property and value |
| Style.FirstTwoColonPieces | index.ts:16 | anything after a second `:` is ignored |
| Style.MissingValueDropped | index.ts:17 | a piece without `:` yields no declaration |
| Style.DeclarationsAppend | index.ts:13-23 | the pieces are read one by one: the declarations of two runs of pieces are the two lists one after the other |
| Style.DeclarationsOne | index.ts:14-18 | a blank piece or one that does not parse gives nothing; any other piece gives the declaration it parses to |
| Style.ParseSpaced | index.ts:16 | white space around the property and around the value is ignored |
| Style.CamelProperty | index.ts:19 | the first character is upper-cased exactly when the property starts with `-` and a lower-case letter |
| Style.KebabOfCamel | index.ts:19 | for a property without upper-case letters, re-inserting dashes undoes the camel-casing |
| Style.CamelOfKebab | index.ts:19 | for a name without `-` before a lower-case letter, camel-casing undoes the dash insertion |
| Style.CssToObjectIsEntries | index.ts:8-26 | the result is the joined entries of the declarations of the quote-stripped, trimmed, `;`-split text, in braces |
| Style.CssRoundTrip | index.ts:8-26 | rendering well-formed declarations as CSS and converting back yields exactly their entries |
| Style.CssPadded | index.ts:9 | white space around the whole text does not change the result |
| Style.CssSpacedRoundTrip | index.ts:8-26 | declarations written with any white space around each half and around the text, with or without a final `;`, come back as exactly their entries, in order |
| Style.ColorRed | test/index.test.js:8 | `"color: red;"`, quotes included, converts to `{color: "red"}` |
| Style.CssOfQuoted | index.ts:9 | the surrounding double quotes that the style expression captures do not change the result |
| Events.EventMatch | index.ts:48 | a match is `on`, word characters, `=`, a quote, a non-empty quote-free value and a quote |
| Events.EventAtFront | index.ts:28-49 | an event attribute at a word boundary is rewritten to its camel-cased JSX form and the scan goes on after it |
| Events.WordBeforeBlocks | index.ts:48 | `on` right after a word character is not at a word boundary and is copied |
| Events.EventsAbsent | index.ts:47-49 | text without `on` is left unchanged |
| Events.NestedQuoteCut | index.ts:48 | a handler holding a quote of the other kind is cut at that quote |
| SelfClosing.TableMatch | index.ts:37 | the matched void tag name is followed by white space, `>` or `/`, and no other name could match |
| SelfClosing.CloseTagAt | index.ts:37 | a match is `<`, a tag name from the table, and everything up to the first `>` after that name |
| SelfClosing.CloseTagAtIs | index.ts:37 | conversely, `<`, a table name followed by a boundary character, and a `>` with none before it after the name make the match ending at that `>` |
| SelfClosing.OpenVoidTagClosed | index.ts:34-45 | an unclosed void tag, in any case, gains `/` before its `>` and the rest is processed on its own |
| SelfClosing.ClosedVoidTagUnchanged | index.ts:34-45 | an already closed void tag comes out as it was: the `//>` of the first pass collapses back to `/>` |
| SelfClosing.CloseTagsPlain | index.ts:35-42 | text with no `<` before the initial of a void tag is left unchanged |
| SelfClosing.PrefixSafe | index.ts:37 | a tag whose name extends a void tag name with a letter, like `<colgroup>` or `<inputs>`, is not matched |
| SelfClosing.ColgroupNotMatched | test/index.test.mjs:41-45 | `<colgroup>` starts with the void name `col` and is still not matched |
| SelfClosing.CollapseFirst | index.ts:44 | the first `//>` becomes `/>` and the scan goes on after it |
| Passes.NoClassLeft | index.ts:51-53 | no `class=` remains after the rename |
| Passes.ClassRenameIdempotent | index.ts:51-53 | a second rename changes nothing |
| Passes.RemoveCommentsDropsComment | index.ts:55-57 | a comment is deleted with its delimiters, up to the first `-->` |
| Passes.RemoveCommentsUnterminated | index.ts:55-57 | text without `-->` is left unchanged, including an opener without a terminator |
| Passes.RemoveCommentsNoOpener | index.ts:55-57 | text without `<!--` is left unchanged |
| Passes.RemoveCommentsNotIdempotent | index.ts:55-57 | deleting one comment can join a second one, which only a second run deletes |
| Tags.IsTagClosedIff | index.ts:59-61 | a tag is closed exactly when it is in the table of tags that require closing |
| Tags.ValidateInput | index.ts:63-67 | fails, with the source's message, exactly when the input is empty or all white space |
| Tags.ValidateTag | index.ts:69-73 | passes exactly for the tags that require closing, and otherwise fails with the tag's message |
| Tags.OpeningNames | index.ts:77 | every captured name is non-empty and contains no `/` and no `>` |
| Tags.ValidateTags | index.ts:75-82 | passes exactly when every captured name, lower-cased, passes; otherwise returns the first failure |
| CamelCase.ToCamelCaseIsCamelChars | index.ts:84-93 | split, map and join equal a single left-to-right scan |
| CamelCase.CamelCaseShape | index.ts:84-93 | no separator remains, and ignoring case the result is the input without its separators |
| CamelCase.SingleWord | index.ts:84-93 | a single word is lower-cased |
| CamelCase.TwoWords | index.ts:84-93 | two words are the first lower-cased and the second capitalized |
| Style.StyleMatchAt | index.ts:97 | a match is `style` in any case, white space, `=`, white space, `"`, and the first `"` after it with no line terminator between; the capture runs from quote to quote |
| Style.StyleMatchBetween | index.ts:97 | conversely, every text of that shape is matched, ending after its closing quote |
| Style.StyleAttributeRewritten | index.ts:96-100 | `style = "css"`, in any case and with any spaces, becomes `style={object}` and the scan goes on after it |
| Style.StyleAbsent | index.ts:96-100 | text without `style` is left unchanged |
| Passes.ImageFixIsSplitJoin | index.ts:102-104 | every `</img>` is deleted and the text between occurrences is kept |
| Passes.ImageFixNotIdempotent | index.ts:102-104 | deleting one `</img>` can join the halves of another |
| Replacing.DeletionRejoins | index.ts:103 | deleting a pattern that sits between the pattern's first character and the rest of it leaves one whole occurrence |
| Replacing.ReplaceIsSplitJoin | index.ts:103 | replacing every occurrence is splitting at the pattern and joining with the replacement |
| Replacing.SplitJoinRoundTrip | index.ts:103 | joining the split pieces with the pattern gives the input back |
| Passes.DoctypeHtmlDropped | index.ts:106-108 | `<!DOCTYPE html>` in any case is deleted |
| Passes.DoctypeDropped | index.ts:106-108 | `<!DOCTYPE>` in any case is deleted |
| Passes.RemoveInvalidTagsAbsent | index.ts:106-108 | text without `<!doctype` in any case is left unchanged |
| Passes.RemoveUnsupportedAttrsIsSplitJoin | index.ts:110-112 | every exact xlink declaration is deleted and the text between is kept |
| Attributes.ReplaceAttributes | index.ts:114-121 | the six reassignments compute the whole attribute rewrite |
| Attributes.ForInsideWord | index.ts:115 | `for=` is renamed in any case, even inside a longer word |
| Attributes.RenameForNotIdempotent | index.ts:115 | a second run renames the `For=` inside `htmlFor=` again |
| Attributes.WordAtFront | index.ts:116-120 | a whole-word match, in any case, is replaced and the scan goes on after it |
| Attributes.LongerWordKept | index.ts:116-120 | a name followed by a word character is not matched |
| Attributes.CaseOnlyRename | index.ts:116-117 | a whole-word rename whose replacement differs from the word only in letter case, as `autocomplete` and `tabindex` do, leaves the text the same up to case |
| Attributes.RenameAttributesAbsent | index.ts:114-121 | text containing none of the six names is left unchanged |
| HtmlValidator.TokenAt | index.ts:133 | a matched tag is `<` or `</` (the closing flag says which), a letter followed by letters and digits as its name, then a character other than a letter, digit or `_`, and everything up to the first `>` |
| HtmlValidator.TokenAtOf | index.ts:133 | conversely, every text of that shape, attributes included, is matched as that tag |
| HtmlValidator.TokensOfOpen | index.ts:133 | `<name>` is matched as one opening tag |
| HtmlValidator.TokensOfClose | index.ts:133 | `</name>` is matched as one closing tag |
| HtmlValidator.NoTagText | index.ts:133 | text without `<` contributes no tags |
| HtmlValidator.BlankHasNoTokens | index.ts:128-133 | text that is all white space contains no tags |
| HtmlValidator.VisitTag | index.ts:137-154 | one loop iteration: skip, push, pop, or the matching error |
| HtmlValidator.ValidateHtml | index.ts:123-162 | the loop over the tag matches returns exactly the specified verdict |
| HtmlValidator.ScanAppend | index.ts:136-155 | scanning a concatenation is scanning the second part from the stack the first leaves |
| HtmlValidator.ScanIsRun | index.ts:140-154 | the validator's stack agrees with the pure stack discipline on the effective tags |
| Nesting.AcceptsIffForest | index.ts:132-159 | the stack discipline, started and ended empty, accepts exactly the renderings of element forests |
| HtmlValidator.ValidIffNested | index.ts:123-162 | the HTML is valid exactly when its effective tags form properly nested elements |
| HtmlValidator.UnclosedIff | index.ts:157-159 | the unclosed-tags error reports exactly the non-empty stack that remains |
| HtmlValidator.ScanFailsOnClose | index.ts:144-151 | an error raised inside the loop is never the unclosed-tags error |
| HtmlValidator.OpensStack | index.ts:152-154 | opening tags are pushed in document order |
| HtmlValidator.UnexpectedCloseFirst | index.ts:144-147 | a closing tag with nothing open is reported with its full text |
| HtmlValidator.MismatchFirst | index.ts:148-151 | a closing tag for a different element is reported with both names |
| HtmlValidator.UnclosedPair | index.ts:157-159 | two open elements are reported as unclosed, in order |
| HtmlValidator.SingleElementValid | index.ts:123-162 | one element around text without tags is valid |
| Chars.TrimEmptyIff | index.ts:128 | the trimmed text is empty exactly when every character is white space |
| Chars.TrimPadded | index.ts:9 | white space added before and after a text does not change its trimmed form |
| Pipeline.IndentAllLines | index.ts:168-180 | the identity without `indentCode`; otherwise the formatter's output, or the fixed error when it fails |
| Pipeline.Convert | index.ts:182-194 | the ten passes in the source's order, then indentation; always succeeds without `indentCode` |
| Pipeline.PlainUnchanged | index.ts:185-192 | the wrapped form of neutral text passes through every later pass unchanged |
| Pipeline.NeutralTextWrapped | index.ts:182-194 | text with no letters and no `<`, `-` or `/` is just wrapped in a `div` |
| Pipeline.ConvertEmpty | index.ts:182-194 | the empty input converts to `<div></div>` |

## Left out

- The `typeof` checks of `validateInput` and `validateHtml`: every input here is a string.
- Unicode case mapping: `toLowerCase` and `toUpperCase` are modelled on ASCII letters only. The case-insensitive patterns are exact, because a JavaScript `i` match without the `u` flag never maps a non-ASCII character to an ASCII letter.
- UTF-16: a Dafny `char` is one Unicode scalar value, not a UTF-16 code unit. No pattern here depends on surrogate pairs.
- The `beautify` package: formatting is a function parameter. `None` stands for the package failing to load or throwing.
- Error throwing: an exception is a `Result` or `Outcome` carrying the source's message.
- `HtmlValidator.ValidateHtml`: the loop visits the list of tag matches (`Tokens`) instead of re-running `exec` on a regular expression with a `lastIndex`. `Tags.ValidateTags` visits its captured names the same way.
- `Pipeline.NeutralTextWrapped`: the whole conversion is characterised only for text that no pass reacts to. Other inputs are described pass by pass.
- `index.js`, the Babel-compiled copy of the same module, is not part of this model. Neither are `jest.config.cjs`, `beautify.d.ts` and the test suite, apart from the expectations that rows of the Model table cite.

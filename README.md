# Tool-call result card: payload pipeline and connect flow

This project models the logic of the chat example's tool-call result card,
`examples/chat/components/tool-call-result.tsx`. The card has two parts.

**The payload pipeline** turns a tool call's arguments and result into the
highlighted HTML shown in the "Request" and "Response" blocks:

- `deepParseJson` replaces every string that looks like a JSON document
  (after trimming it is bracketed by `{…}` or `[…]`) with its parse. It
  recurses into arrays and objects and stops below depth 6. Objects are
  rebuilt member by member.
- `deepDecodeHtmlEntities` rewrites the HTML entities in every string.
- `deepNormalizeWhitespace` cleans up line endings, trailing blanks and
  blank lines in every string.
- `highlightJson` escapes the pretty-printed text and then wraps matches of
  one pattern in coloured `<span>` tags. The pattern has alternatives for
  keys, strings, keywords and numbers. Escaping turns every `"` into
  `&quot;`, so only keywords and numbers are ever wrapped.

**The connect flow** works on the text of the result's first content item:

- it finds the first Pipedream Connect link and reads its `token` and `app`
  query parameters;
- it renders nothing without a user id;
- it shows a "Connect account" button while the card is not connected;
- on a click it launches the connector. The connector's success handler
  marks the card connected, fetches the account details, and one second
  later appends a `Done` user turn to the chat.

## Files and modules

| file | module | contents |
|---|---|---|
| `wrappers.dfy` | `Wrappers` | `Option` |
| `json.dfy` | `Json` | the JSON value a parse yields (`Str`, `Num`, `Bool`, `Null`, `Arr`, `Obj` with ordered members) and the depth bound 6 |
| `text.dfy` | `Text` | the JavaScript `\s` class, `trim`, `split`, `join`, and literal global `replace` as a non-rescanning left-to-right scan |
| `entities.dfy` | `Entities` | `escapeHtml`, `decodeHtmlEntities` and the round trip between them |
| `whitespace.dfy` | `Whitespace` | `normalizeStringWhitespace`: an imperative method whose loops mirror the source's, proved against a functional specification, plus the normal form it produces |
| `payload.dfy` | `Payload` | `looksLikeJsonString`, `deepParseJson`, the two deep string maps, and their composition in `JsonBlock` |
| `highlight.dfy` | `Highlight` | the highlighting regular expression as a set of scanners, `prettifyJsonStringLiteral`, and the markup it produces |
| `connect.dfy` | `Connect` | link and parameter extraction, and the card's connect state as a class with event methods |

`JSON.parse` is a parameter `parse: string -> Option<Value>`: `None`
means the parse threw. The regular expressions are written out as
scanners. Where a pattern could backtrack, the doc comment on the scanner
says why its first successful alternative is the one the regular
expression picks. The React state setters are fields of
`Connect.ConnectionFlow`. The asynchronous completions are event methods
on it: the connector's callbacks, the account fetch settling, and the
timer firing.

In these points the model follows the code's behaviour:

- Each deep transform rebuilds an object by assigning `output[key] = …` on
  a fresh `{}`. For the key `__proto__` that assignment calls the inherited
  prototype setter and creates no member. So down to depth 6 a member named
  `__proto__` disappears (`Payload.OwnMembers`, `Payload.DeepParseDropsProto`,
  `Payload.MapStringsDropsProto`).
- Nothing guards a launch already in flight, so two clicks launch the
  connector twice (`Connect.DoubleClick`).
- An error from the connector is only logged. There is no failed state,
  and the button stays (`Connect.ErrorAfterClick`).
- The button appears whenever a link matched, even when the link lacks a
  token or app. Clicking it then does nothing (`Connect.IncompleteLink`).
- The one-second timer is never cancelled.
- A failed account fetch still leaves the card connected
  (`Connect.FailedFetch`).

## Model

| member | source | states |
|---|---|---|
| Payload.LooksLikeJsonStringIff | examples/chat/components/tool-call-result.tsx:35-42 | a value looks like a JSON string exactly when it is a string with white space only outside positions i ≤ j, holding `{`/`}` or `[`/`]` at i and j |
| Payload.LooksLikeJsonStringWitness | examples/chat/components/tool-call-result.tsx:37-41 | a string that looks like JSON has such a bracketed trimmed core |
| Payload.BracketedLooksLikeJson | examples/chat/components/tool-call-result.tsx:37-41 | any bracketed trimmed core makes the string look like JSON |
| Text.TrimSlice | examples/chat/components/tool-call-result.tsx:37 | `trim` returns the slice between margins of white space only, and a non-empty result neither starts nor ends with white space |
| Text.TrimIs | examples/chat/components/tool-call-result.tsx:37 | conversely, any slice between white-space-only margins whose ends are not white space is what `trim` returns |
| Payload.DeepParseKeepsStructure | examples/chat/components/tool-call-result.tsx:44-65 | down to depth 6 the deep parse changes a string only when it looks like JSON and parses; arrays keep their length; objects keep their members other than `__proto__`, with the same keys in the same order; scalars and everything deeper stay as they are |
| Payload.OwnMembers | examples/chat/components/tool-call-result.tsx:57-61 | rebuilding an object keeps exactly its members whose key is not `__proto__`, and no more of them |
| Payload.OwnMembersKeepsPlain | examples/chat/components/tool-call-result.tsx:57-61 | members without a `__proto__` key are all kept, in order |
| Payload.OwnMembersDrops | examples/chat/components/tool-call-result.tsx:57-61 | an object with a `__proto__` member loses a member when rebuilt |
| Payload.DeepParseDropsProto | examples/chat/components/tool-call-result.tsx:57-61 | a leading `__proto__` member down to depth 6 leaves the deep parse as if it were absent |
| Payload.RebuiltIff | examples/chat/components/tool-call-result.tsx:57-61 | rebuilding the objects down to depth 6 gives the value back exactly when none of them has a `__proto__` member |
| Payload.DeepParseIdentity | examples/chat/components/tool-call-result.tsx:44-65 | a value none of whose strings down to depth 6 looks like JSON comes back with its objects rebuilt, and so unchanged exactly when none of them has a `__proto__` member |
| Payload.DeepParseOfDocument | examples/chat/components/tool-call-result.tsx:46-49 | a JSON-looking string that parses to a document without JSON-looking strings is replaced by that document, rebuilt; it is the document itself when that has no `__proto__` member |
| Payload.MapStringsKeepsSkeleton | examples/chat/components/tool-call-result.tsx:101-117 | a deep string map (the shape of `deepDecodeHtmlEntities` and `deepNormalizeWhitespace`) changes no numbers, booleans, nulls, array lengths, keys other than the dropped `__proto__`, or member order |
| Payload.MapStringsDropsProto | examples/chat/components/tool-call-result.tsx:110-113 | a leading `__proto__` member down to depth 6 leaves a deep string map as if it were absent |
| Payload.MapStringsThen | examples/chat/components/tool-call-result.tsx:101-117 | two deep string maps in a row equal one deep map of the composed string function |
| Payload.MapStringsLeaves | examples/chat/components/tool-call-result.tsx:146-156 | every string down to depth 6 of a deep map satisfies what every output of the mapped function satisfies |
| Payload.MapStringsInverse | examples/chat/components/tool-call-result.tsx:101-117 | mapping g after f gives the value back rebuilt when g undoes f, and so unchanged when it has no `__proto__` member |
| Payload.MapStringsIdempotent | examples/chat/components/tool-call-result.tsx:146-156 | mapping an idempotent function twice equals mapping it once |
| Payload.DeepDecodeUndoesEscape | examples/chat/components/tool-call-result.tsx:101-117 | `deepDecodeHtmlEntities` restores any value whose strings were HTML-escaped, up to dropped `__proto__` members |
| Payload.DeepNormalizeWhitespaceShape | examples/chat/components/tool-call-result.tsx:146-156 | `deepNormalizeWhitespace` is idempotent, and every string it leaves is in whitespace normal form |
| Payload.DisplayedValueShape | examples/chat/components/tool-call-result.tsx:184-185 | the value JsonBlock serialises (a twice deep-parsed input, decoded and normalised) has every string in normal form and the skeleton of the twice-parsed input |
| Entities.EscapeHtmlAppend | examples/chat/components/tool-call-result.tsx:67-72 | escaping distributes over concatenation |
| Entities.EscapeHtmlChar | examples/chat/components/tool-call-result.tsx:67-72 | escaping one character gives `&amp;`, `&lt;`, `&gt;`, `&quot;` or the character itself |
| Entities.EscapeHtmlIsCharwise | examples/chat/components/tool-call-result.tsx:67-72 | the four chained replacements equal a single character-by-character escape; `&amp;` is not re-escaped by the later steps |
| Entities.EscapeHtmlShape | examples/chat/components/tool-call-result.tsx:67-72 | escaped text contains no `<`, `>` or `"`, and every `&` in it starts one of the four escapes |
| Entities.FromCodePoint | examples/chat/components/tool-call-result.tsx:89-95 | `String.fromCodePoint` succeeds exactly for code points up to U+10FFFF that are not surrogates, with that one character; otherwise it throws and the match stays |
| Entities.EntityAt | examples/chat/components/tool-call-result.tsx:83 | a match of the entity pattern is `&`, a non-empty name and `;` at the front of the text |
| Entities.NamedMatch | examples/chat/components/tool-call-result.tsx:83 | `&` followed by letters and `;` matches with the letters as entity |
| Entities.DecimalMatch | examples/chat/components/tool-call-result.tsx:83 | `&#`, decimal digits and `;` match |
| Entities.HexMatch | examples/chat/components/tool-call-result.tsx:83 | `&#x`, hexadecimal digits and `;` match |
| Entities.DecodeAtEntity | examples/chat/components/tool-call-result.tsx:83-98 | a matched entity is replaced by its replacement, or kept as written when it has none, and scanning continues after it |
| Entities.DecodeEscapedChar | examples/chat/components/tool-call-result.tsx:74-99 | decoding the escape of a character gives the character back |
| Entities.DecodeEscapeRoundTrip | examples/chat/components/tool-call-result.tsx:67-99 | `decodeHtmlEntities(escapeHtml(s)) == s` for every s |
| Entities.DecodeDoesNotRescan | examples/chat/components/tool-call-result.tsx:83 | `&amp;` decodes to `&` and the text after it is decoded separately, so `&amp;lt;` gives `&lt;` |
| Entities.DecodeKeepsUnknownName | examples/chat/components/tool-call-result.tsx:97 | a letter entity outside the named table is left as written |
| Entities.DecodeDecimalReference | examples/chat/components/tool-call-result.tsx:85-95 | `&#digits;` decodes to the character of that decimal code point when it is a valid one, and is kept as written otherwise |
| Entities.DecodeHexReference | examples/chat/components/tool-call-result.tsx:85-95 | `&#xdigits;` decodes to the character of that hexadecimal code point when it is a valid one, and is kept as written otherwise |
| Whitespace.UnifyNewlines | examples/chat/components/tool-call-result.tsx:121 | no carriage return survives |
| Whitespace.UnifyNewlinesWithoutCR | examples/chat/components/tool-call-result.tsx:121 | text without carriage returns is unchanged |
| Whitespace.StripTrailingBlanks | examples/chat/components/tool-call-result.tsx:125 | the result is a prefix of the line, does not end in a space or tab, and only spaces and tabs were removed |
| Whitespace.NormalizeStringWhitespace | examples/chat/components/tool-call-result.tsx:119-144 | the method with the shift/pop loops and the blank-run loop computes the specification and returns text in normal form |
| Whitespace.CollapseBounded | examples/chat/components/tool-call-result.tsx:131-142 | the collapsed lines never hold three blank lines in a row |
| Whitespace.CollapseLines | examples/chat/components/tool-call-result.tsx:134-141 | each collapsed line is empty or a non-blank input line |
| Whitespace.CollapseIdentity | examples/chat/components/tool-call-result.tsx:131-142 | lines whose blank lines are empty and never three in a row are not changed by collapsing |
| Whitespace.DropLeadingShape | examples/chat/components/tool-call-result.tsx:129 | the shift loop drops exactly a prefix of blank lines, and leaves either nothing or a non-blank first line |
| Whitespace.DropTrailingShape | examples/chat/components/tool-call-result.tsx:130 | the pop loop drops exactly a suffix of blank lines, and leaves either nothing or a non-blank last line |
| Whitespace.NormalizedShape | examples/chat/components/tool-call-result.tsx:119-144 | every output is in normal form: no carriage return, no trailing space or tab on a line, no blank first or last line, blank lines empty, at most two blank lines in a row |
| Whitespace.NormalFormIsFixed | examples/chat/components/tool-call-result.tsx:119-144 | a text in normal form is returned unchanged |
| Whitespace.NormalizeIdempotent | examples/chat/components/tool-call-result.tsx:119-144 | normalising twice equals normalising once |
| Whitespace.NormalizeKeepsText | examples/chat/components/tool-call-result.tsx:119-144 | the non-blank lines of the output are the non-blank input lines, in order, with trailing blanks stripped |
| Highlight.BodyEnd | examples/chat/components/tool-call-result.tsx:171 | a found end of a string body is a quote at or after the start |
| Highlight.BodyEndIff | examples/chat/components/tool-call-result.tsx:171 | the scan stops at q exactly when q holds a quote and the text before it is a run of `\uXXXX`, backslash-and-non-`u`, and non-backslash non-quote elements; so that closing quote is unique, and an escaped quote never closes a body |
| Highlight.StringAt | examples/chat/components/tool-call-result.tsx:171 | a string-literal match starts and ends with a quote |
| Highlight.KeyAt | examples/chat/components/tool-call-result.tsx:171 | a key match starts with a quote and ends with a colon |
| Highlight.KeywordAt | examples/chat/components/tool-call-result.tsx:171 | a keyword match is `true`, `false` or `null` between word boundaries |
| Highlight.NumberAtIsLexeme | examples/chat/components/tool-call-result.tsx:171 | a number match is an optional minus, digits, an optional fraction and an optional exponent, ending on a word boundary, with a boundary before its digits when there is no minus |
| Highlight.MatchWithoutQuotes | examples/chat/components/tool-call-result.tsx:169-172 | in text without quotes, only keywords and numbers can match |
| Highlight.PrettifyShape | examples/chat/components/tool-call-result.tsx:158-166 | the prettified literal keeps its surrounding quotes and contains no `\t` escape pair |
| Highlight.PrettifyPlain | examples/chat/components/tool-call-result.tsx:158-166 | a literal without backslashes, and any text shorter than two characters, is unchanged |
| Highlight.PrettifyCrLf | examples/chat/components/tool-call-result.tsx:161-165 | an escaped `\r\n` between backslash-free texts becomes one real line break, and the texts around it are kept |
| Highlight.SpansAreTagNames | examples/chat/components/tool-call-result.tsx:173-180 | none of the four span openers or the closer contains `>` |
| Highlight.RemoveWrap | examples/chat/components/tool-call-result.tsx:173-180 | stripping the tags from a wrapped token leaves its text |
| Highlight.ScanKeepsText | examples/chat/components/tool-call-result.tsx:172-181 | on text without `<`, `>` or `"`, removing the tags the replacement inserts gives the text back |
| Highlight.HighlightKeepsEscapedText | examples/chat/components/tool-call-result.tsx:168-182 | `highlightJson` only inserts tags around the HTML-escaped input; because escaping removes every quote, the key and string alternatives never match and only keywords and numbers are coloured |
| Connect.FindFrom | examples/chat/components/tool-call-result.tsx:201-202 | a found position holds the pattern |
| Connect.FindFromIsFirst | examples/chat/components/tool-call-result.tsx:201-202 | the found position is the first occurrence at or after the start, and nothing is found only when there is no occurrence |
| Connect.FindAtFrom | examples/chat/components/tool-call-result.tsx:201-202 | the search finds a position holding the pattern when no earlier position from the start holds it |
| Connect.ConnectLinkFound | examples/chat/components/tool-call-result.tsx:201-204 | a link is found exactly when the text exists and contains the Connect base URL |
| Connect.FirstMatchShape | examples/chat/components/tool-call-result.tsx:201-203 | the first match of a base followed by a character class starts at the first occurrence of the base, is the base followed by the longest run of class characters, and is followed by a character outside the class or the end of the text; for the link the class is non-space |
| Connect.FirstMatchIgnoresLater | examples/chat/components/tool-call-result.tsx:202-203 | when a text holds a match and ends outside the character class, appending anything leaves the first match unchanged |
| Connect.FirstMatchInText | examples/chat/components/tool-call-result.tsx:201-203 | when the base occurs nowhere before the point where it is placed, text, then the base, a run of class characters and a stop character or the end, matches exactly the base and that run |
| Connect.QueryAfterBase | examples/chat/components/tool-call-result.tsx:210 | the query that `new URL(link).searchParams` reads is what follows a `?` placed right after a base that has no `?` or `#` |
| Connect.LaterLinksIgnored | examples/chat/components/tool-call-result.tsx:202-203 | text after a first link does not change the link or its parameters |
| Connect.IndexOf | examples/chat/components/tool-call-result.tsx:210 | the position of the first occurrence of a character, or the length when it is absent |
| Connect.LookupIsFirst | examples/chat/components/tool-call-result.tsx:210-212 | `searchParams.get` returns the value of the pair at a position before which no pair has the name, and returns nothing exactly when no pair has it |
| Connect.NonEmpty | examples/chat/components/tool-call-result.tsx:211-212 | `\|\| undefined` drops an empty value and keeps any other |
| Connect.ExtractConnectParams | examples/chat/components/tool-call-result.tsx:208-213 | without a link both parameters are absent; a present token or app is never empty |
| Connect.ExtractFromLink | examples/chat/components/tool-call-result.tsx:201-213 | when the Connect base occurs nowhere before the link, the link ends at white space or the end of the text, and its query after `?` has no spaces and no `#`, the token and app are the non-empty `token` and `app` values of that query |
| Connect.ExtractTokenAndApp | examples/chat/components/tool-call-result.tsx:201-213 | a text whose first Connect base starts the link `…connect.html?token=T&app=A` yields token T and app A |
| Connect.ExtractTokenOnly | examples/chat/components/tool-call-result.tsx:201-213 | a first link with only `?token=T` yields token T and no app |
| Connect.ConnectionFlow.constructor | examples/chat/components/tool-call-result.tsx:208-224 | the card starts not connected, not loading, with no account, and shows the button exactly when a user id exists and a link matched |
| Connect.ConnectionFlow.ConnectAccount | examples/chat/components/tool-call-result.tsx:229-235 | with both parameters one launch with that app and token is added; otherwise nothing changes |
| Connect.ConnectionFlow.OnSuccess | examples/chat/components/tool-call-result.tsx:236-239 | the card becomes connected and loading, and the account fetch is pending |
| Connect.ConnectionFlow.OnError | examples/chat/components/tool-call-result.tsx:256-258 | nothing but the pending callback count changes |
| Connect.ConnectionFlow.SettleFetch | examples/chat/components/tool-call-result.tsx:242-254 | a found account is shown, `null` clears it, a rejection keeps it; loading ends and the timer is armed; the card stays connected |
| Connect.ConnectionFlow.FireTimer | examples/chat/components/tool-call-result.tsx:252-254 | one `Done` turn is appended |
| Connect.DoubleClick | examples/chat/components/tool-call-result.tsx:229-235 | two clicks before any callback launch the connector twice with the same app and token |
| Connect.FailedFetch | examples/chat/components/tool-call-result.tsx:236-254 | a fetch that throws leaves the card connected, not loading, without an account, and appends exactly one `Done` |
| Connect.ErrorAfterClick | examples/chat/components/tool-call-result.tsx:256-258 | after a connector error the card is not connected, the button is still shown and no turn is appended |
| Connect.IncompleteLink | examples/chat/components/tool-call-result.tsx:229-231 | a link missing its token or app shows the button, and a click launches nothing |
| Connect.SuccessfulConnection | examples/chat/components/tool-call-result.tsx:236-254 | a success with a found account shows that account, hides the button and appends exactly one `Done` |

## Left out

- The JSX rendering, the CSS classes outside the highlight spans, the collapsible, icons and the connected-account panel are presentation and are not modelled. The link and state they depend on are modelled.
- `JSON.parse` is a parameter. Any parse function is allowed, so the model relies on nothing about JSON syntax.
- `JSON.stringify(normalized, null, 2)` between normalisation and highlighting is not modelled. `Highlight.HighlightJson` is stated for any input text.
- Numbers are kept as opaque 64-bit patterns. No operation here inspects them.
- JavaScript objects with duplicate keys or non-JSON values (functions, `undefined`, dates) are outside the JSON value type. Objects are ordered member lists.
- Payload.OwnMembers: when a dropped `__proto__` member holds an object, the assignment also makes it the rebuilt object's prototype. `JSON.stringify` does not show inherited members, so this is not modelled.
- `new URL(...).searchParams` is modelled as splitting the query at `&` and each pair at the first `=`. The query ends at the first `#`. Percent-decoding, `+` as a space and the fragment after `#` are not modelled.
- Connect.ExtractConnectParams: states the parameter facts that hold for every text. The exact token and app are given only for links of the shapes in `Connect.ExtractTokenAndApp`, `Connect.ExtractTokenOnly` and `Connect.ExtractFromLink`.
- The Pipedream SDK's `createFrontendClient` and `connectAccount`, `getConnectedAccountById`, `useEffectiveSession` and the chat's `append` are foreign calls. They are modelled by the event methods of `Connect.ConnectionFlow` and the `launches` and `appended` fields.
- The timer's one-second delay and the ordering of asynchronous events are not modelled beyond what the event methods' preconditions require.
- Connect.ConnectionFlow.OnSuccess: the account id the fetch reports is recorded as pending. Nothing requires the fetched account's id to equal it.
- Unmounting the card, React re-renders, and hook rules are not modelled. Note that the early `return` at line 224 comes after the hooks in the source.
- Connect.ConnectionFlow.OnError: the `console.error` call that logs the error is output and is not modelled.
- The `hashid` app id and the icon URL are presentation and are not modelled.
- The result text is modelled as an optional string. A `content[0].text` that is not a string is not modelled.
- Entities.FromCodePoint: code points are integers, with one `char` per code point. UTF-16 surrogate pairs for code points above U+FFFF are not modelled. A surrogate code point, which Dafny's `char` cannot hold, is treated as a throw, so the entity stays as written. JavaScript would return the lone surrogate.
- Highlight.NumberAt: a number is tried in the order fraction-and-exponent, fraction, exponent, plain, taking the first that ends on a word boundary. The doc comment argues that this is the alternative the backtracking regular expression selects. That argument is not proved. The same holds for the `\s*` before a key's colon. For the string body, `Highlight.BodyEndIff` shows that only one closing quote can end a body, and the scan finds it.
- `prettifyToolName` and every other file of the repository are not part of this model.

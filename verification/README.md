# Copywriter assistant: reply formatting and submit/clear state, in Dafny

The modelled program is a single-page React client. It posts a prompt to an n8n
webhook and shows the reply, reformatted as Markdown for Slovak business letters.
This project models its text-processing core and its small state machine, and
proves properties of both:

- **Escape normalisation** (`src/App.js`). The reply's `message` falls back to the
  serialised body when falsy. If the stored value is a string, every backslash-`n`
  pair in it becomes a real newline.
- **`convertToMarkdown`** (`src/App.js`). Fourteen global regular-expression
  rewrites, applied in source order, each to the whole text:
  - ten line-anchored rules for salutations, sign-offs, team signatures and thanks;
  - the alert keywords;
  - bullets;
  - numbered items;
  - the paragraph rewrite.

  Each rewrite is written as the scan the JavaScript engine performs, with the
  engine's meaning of `^`, `$`, `.`, `\b`, `\s` and `\d` without the `u` flag. The
  line-anchored scan is then proved equal to "split into lines, decorate the lines
  that start with the prefix, join".
- **The submit/clear state machine** (`src/App.js`). The state is
  `(prompt, response, loading)`. Its events are:
  - editing;
  - pressing submit;
  - the request's success or failure;
  - clearing.

  The model also covers which of these the page lets through while a request is in
  flight, and what the response area shows.
- **The superseded variant** (`src/App_origos.js`):
  - its `convertToMarkdown`, two first-match-only rewrites;
  - `formatResponse`, which cuts the text at blank lines and tags each paragraph
    as a greeting/signature or as a normal paragraph with line breaks.

Files:
- `jstext.dfy`: JavaScript character classes, `\b`, multiline `^`, and `trim`.
- `splitting.dfy`: `split`, `join`, global literal replacement, occurrence counts.
- `lines.dfy`: line layout, and the `^(PREFIX.*?)$` pass with its line-map
  characterisation.
- `markdown.dfy`: the escape normalisation and every rewrite of `convertToMarkdown`.
- `session.dfy`: the state machine and the response view.
- `legacy.dfy`: `src/App_origos.js`.

The alert rule (src/App.js:94-95) is commented as the rule for important words,
and its alternation lists `DÔLEŽITÉ` first. That keyword is never rewritten. `É` is
not an ASCII word character, and neither is the `:` after it, so the `\b` between
them never holds. The model follows the code: `Markdown.ImportantNeverMatches` and
`Markdown.KeywordDecidedAt` prove that `DÔLEŽITÉ:` is always copied unchanged.

## Model

| member | source | states |
|---|---|---|
| JsText.Trim | src/App.js:18 | `prompt.trim()` is a contiguous piece of the prompt with only JavaScript white space before and after it, that neither starts nor ends with white space, and it is empty exactly when the prompt is all white space |
| Splitting.SplitThenJoin | src/App_origos.js:68 | joining the pieces of `split(sep)` with `sep` gives back the text, so splitting loses nothing |
| Splitting.SplitCount | src/App_origos.js:68-70 | `split(sep)` yields one piece more than there are non-overlapping occurrences of `sep` |
| Splitting.SplitLeftmost | src/App_origos.js:68 | each piece is cut at the first occurrence after it: no piece, extended by all but the last separator character, holds an occurrence, and the last piece holds none |
| Splitting.ReplaceAllIsSplitJoin | src/App.js:42 | a global literal replacement equals splitting at the pattern and joining with the replacement |
| Markdown.UnescapeKeepsPieces | src/App.js:41-43 | the normalised reply is the text between backslash-`n` pairs joined with newlines, one newline per pair |
| Markdown.UnescapeLeavesNoPair | src/App.js:41-43 | no backslash-`n` pair is left in the normalised reply |
| Markdown.UnescapeIdempotent | src/App.js:41-43 | normalising an already normalised reply changes nothing |
| Markdown.UnescapeWithoutPair | src/App.js:41-43 | a reply without a backslash-`n` pair is stored exactly as received |
| Lines.AnchoredPassIsLineMap | src/App.js:80-98 | every `^(PREFIX.*?)$` rewrite with flags `gm` equals: split into lines at the four JavaScript line terminators, decorate the lines starting with the prefix, join with the original terminators |
| Lines.JoinThenSplitLines | src/App.js:80-98 | the line layout is recovered from the joined text, so a later pass sees the lines an earlier pass produced |
| Markdown.InPlaceRuleKeepsLines | src/App.js:80-98 | a salutation (`### `), team (`**…**`) or thanks (`*…*`) rule keeps the line count and terminators, decorates every line starting with its prefix whole, and leaves every other line unchanged |
| Markdown.SignOffLines | src/App.js:85-88 | a rewritten sign-off line L becomes four lines: empty, `---`, empty, `*L*` |
| Markdown.AlertKeywordMatches | src/App.js:95 | `UPOZORNENIE`, `POZNÁMKA`, `TIP`, `NOVINKA` or `AKCIA` followed by `:` is rewritten exactly when no ASCII word character precedes it; the output is `\n**🔔 KW:**`, and the scan resumes right after the colon |
| Markdown.KeywordPassSplit | src/App.js:95 | the keyword rewrite is local: at any offset that no match runs past, the output is the rewrite of the text before the offset followed by the rewrite of the text after it |
| Markdown.KeywordDecidedAt | src/App.js:95 | at every offset of the whole text, `KW:` for one of the five alerts becomes `\n**🔔 KW:**` exactly when no ASCII word character comes before it, and is otherwise copied; `DÔLEŽITÉ:` is always copied; the text around it is rewritten independently |
| Markdown.ImportantNeverMatches | src/App.js:95 | `DÔLEŽITÉ:` is never rewritten, whatever surrounds it |
| Markdown.KeywordPassIdentity | src/App.js:95 | text where no keyword matches is left unchanged |
| Markdown.KeywordPassRoundTrip | src/App.js:95 | for input without a bell character, turning every alert marker back into `KW:` restores the input, so the rewrite only decorates keywords in place |
| Markdown.AnchoredPassIdentity | src/App.js:80-98 | a line rule whose prefix starts no line leaves the text unchanged |
| Markdown.BulletPassPointwise | src/App.js:101 | the bullet rewrite keeps the length. A `•` or `·` at a line start followed by a white-space character becomes `-`. That white-space character (a newline included) becomes a space. Every other character is kept |
| Markdown.BulletPassIdentity | src/App.js:101 | without a line-initial bullet followed by white space the text is unchanged |
| Markdown.LeadingDigits | src/App.js:104 | `\d+` takes the maximal run of ASCII digits |
| Markdown.NumberPassPointwise | src/App.js:104 | the numbering rewrite keeps the length. The white-space character after a line-initial `<digits>.` becomes a space. Every other character is kept |
| Markdown.NumberPassIdentity | src/App.js:104 | without a line-initial `<digits>.` followed by white space the text is unchanged |
| Markdown.ParagraphsIdentity | src/App.js:107 | the final `\n\n` rewrite is the identity |
| Markdown.ConvertPlainText | src/App.js:72-110 | a reply that triggers none of the rewrites is shown exactly as received |
| Session.Submit | src/App.js:18-24 | a blank prompt leaves the state unchanged and sends nothing; otherwise the prompt is sent, loading starts and the old response is emptied |
| Session.BlankPressIsIgnored | src/App.js:18-21 | pressing submit with an empty or all-white-space prompt changes nothing and sends nothing |
| Session.PressSends | src/App.js:23-31 | pressing submit while idle with a non-blank prompt sends exactly that prompt, starts loading and empties the response |
| Session.Extract | src/App.js:38-43 | a truthy string `message` is stored normalised; a truthy non-string is stored as it is; otherwise the serialised body is stored normalised |
| Session.Succeed | src/App.js:38-53 | after a reply the spinner stops and the prompt is kept; a body is stored through the `message` fallback, and a `null` or `undefined` body ends in the failure branch |
| Session.NullishBodyIsAnError | src/App.js:38-53 | a reply with a `null` or `undefined` body shows `Error: ` followed by the thrown error's message, and ends loading |
| Session.StoredTextHasNoEscape | src/App.js:38-45 | a string stored after a successful reply never holds a backslash-`n` pair |
| Session.FalsyMessageFallsBack | src/App.js:38 | an empty-string `message` behaves like a missing one: the serialised body is used |
| Session.ErrorText | src/App.js:50 | the failure text starts with `Error: ` and continues with the server's message when truthy, else with the error's own message |
| Session.Fail | src/App.js:46-53 | after a failure the response is the `Error: ` text, loading has ended and the prompt is kept |
| Session.CompletionEndsLoading | src/App.js:45-53 | success and failure both end loading and keep the prompt |
| Session.ClearResets | src/App.js:66-69 | clearing sets the prompt to `""` and the response to `""` and leaves `loading` alone; after it, pressing submit sends nothing, and on an idle page the response area is hidden |
| Session.Step | src/App.js:121-134 | a request is only sent from an idle state, and it starts loading; a completion that arrives while idle changes nothing |
| Session.OneRequestAtATime | src/App.js:126-134 | while loading, no event sends a request, and only a completion ends loading |
| Session.RunKeepsInv | src/App.js:15-69 | in every run of events, while loading the response is empty, so no stale reply is shown next to the spinner |
| Session.DisplayAsWritten | src/App.js:140-171 | the response area is hidden exactly when idle with a falsy response, and shows the spinner exactly while loading; an idle truthy string response is rendered as `convertToMarkdown(response)`, and an idle non-string response makes the render throw |
| Session.NonStringMessageThrows | src/App.js:38-45 | a reply whose `message` is the number 42 is stored as a non-string, and showing it makes `convertToMarkdown` throw |
| Session.Display | src/App.js:140-171 | the corrected view never throws, and agrees with the view as written wherever that does not throw |
| Legacy.BoldGreetingIsFirstLine | src/App_origos.js:98 | the greeting rewrite bolds the first line exactly equal to `Vážený zákazník,`; later equal lines, and lines with more text, are unchanged |
| Legacy.FirstSignature | src/App_origos.js:101 | the signature match is the leftmost offset where `S úctou a vďačnosťou,\n\nVáš tím` occurs with `Váš tím` ending a line |
| Legacy.ItalicSignatureRoundTrip | src/App_origos.js:101 | at the first match the text becomes `*S úctou a vďačnosťou,*\n\n*Váš tím*`, and removing those four asterisks restores the input |
| Legacy.SignatureAfterText | src/App_origos.js:101 | the closing phrase need not start a line: after any text without an `S` the signature is still rewritten |
| Legacy.LegacyConvertIdentity | src/App_origos.js:94-104 | text in which no line is exactly `Vážený zákazník,` and the signature never occurs with `Váš tím` ending a line comes back unchanged |
| Legacy.FormatResponse | src/App_origos.js:66-70 | one block per piece of `text.split('\n\n')`, in order; the count is the number of occurrences of `\n\n` plus one |
| Legacy.FormatParagraph | src/App_origos.js:72-77 | a paragraph is a greeting/signature block if and only if it starts with `Vážený`, `S úctou` or `Váš tím`; such a block holds the paragraph whole |
| Legacy.BodyShape | src/App_origos.js:80-89 | a normal paragraph shows line k as child 2k, with exactly one break between consecutive lines and none after the last |
| Legacy.FormatRoundTrip | src/App_origos.js:66-92 | reading the blocks back (lines joined at the breaks, paragraphs joined with a blank line) gives the text: nothing is lost or reordered |

## Left out

- Network I/O is not modelled: the `axios.post` call, the webhook URL, the headers, the 30-second timeout and the timestamp. A request is the prompt it carries, and its completion is a separate event.
- `JSON.stringify(result.data, null, 2)` is library serialisation. It is part of the success event's body. A parsed reply body is never a function or a symbol, so the serialisation is always a string.
- The text of the `TypeError` thrown when reading `message` of a `null` or `undefined` body depends on the engine. It is part of the success event.
- Toasts, `console.error` and the clipboard copy (`handleCopy`) only have side effects on the platform and are not modelled.
- The JSX tree and the `ReactMarkdown` renderer are third-party rendering. The model keeps only whether the response area is hidden, shows the spinner, or shows the string passed to the renderer.
- Asynchrony is reduced to discrete events. `loading` is true exactly while a request is in flight, so completions are only delivered while loading. Clearing is allowed at any time, as the clear button is never disabled.
- `handleSubmit` and `handleClear` of `src/App_origos.js` are the same machine without the escape normalisation, and are not modelled separately. `formatResponse` is defined there but never called by its render; it is modelled as a function.
- Strings are sequences of Unicode code points, not UTF-16 code units. Every character the patterns name is in the Basic Multilingual Plane, and none of them is a surrogate, so the rewrites give the same results on either view.
- `convertToMarkdown` of `src/App.js` is modelled for string input only. A non-string reaches it only through the defect under Findings, and there the model says that it throws.
- Markdown.ConvertToMarkdown: beyond the plain-text identity, the whole fourteen-step pipeline has no single characterisation. Each step has one instead (the rows above), and the steps are composed in source order.

## Findings

| source | as written | input that shows it | evidently intended | confidence | as-written member | corrected member |
|---|---|---|---|---|---|---|
| src/App.js:38-45 | `result.data.message` is stored as it is when it is a truthy non-string. The escape normalisation is skipped for it, but it is still handed to `convertToMarkdown`, which calls `.replace` on it and throws during render | prompt `Ahoj`, reply body `{"message": 42}` | show the value as text, converting it to a string before the Markdown rewrites | medium: not executed | Session.NonStringMessageThrows | Session.Display |

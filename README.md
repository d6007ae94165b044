# Search result rendering, modelled in Dafny

This project models the logic of `server/search.js`, a small search front end over a managed
search-and-answer service. The renderer `renderSearchResults` receives the provider's response
and does two things. First, it flattens every raw result into a reference entry
`{title, link, snippet, page}` by optional-chaining into the protobuf-shaped payload. Second,
it rewrites the citation markers `[N]` in the generated summary into markdown links to
reference `N`. The exported factory adds two small pieces of logic: it picks the API host from
the configured location, and it builds the request object, with the configured search options
merged over the defaults.

The model stops at the citation-resolved markdown plus `refs`. It does not go on to HTML.

Modules, one per concern of the file:

- `Wrappers`: `Option` (JavaScript `null`/`undefined`), `Result` (a thrown error), `??` and string truthiness.
- `SearchData`: the response payload, meaning the protobuf `Value`/`ListValue`/`Struct` objects with every property optional, and the optional-chaining lookups into it.
- `References`: reference extraction (`data.results?.map(...)`).
- `ArrayIndex`: which digit strings name an element when used as an array key.
- `Citations`: the global regular-expression replace of `/\[(\d+)\]/g` with its callback.
- `Render`: `renderSearchResults` up to the markdown answer, and the worked examples.
- `SearchFactory`: `apiEndpoint`, `query += '\n' + context` and the `Object.assign` request.

Behaviour worth knowing, all taken from the code:

- `??` falls back only on null/undefined. A title that is the empty string is kept, and the link is not used in its place.
- The citation number reaches the callback as the matched digit string and is used as a property key of the `refs` array. Only the canonical decimal form of an index names an element: `refs["1"]` reads element 1, but `refs["01"]` reads nothing. So a citation with a leading zero never becomes a link.
- A link is written only when `refs[N].link` is truthy, i.e. a non-empty string. Any other match is replaced by its own text.
- Matching goes left to right, matches never overlap, and replacement text is not scanned again. `\d` is the ASCII digits.
- A response without `results` leaves `refs` undefined (server/search.js:21). The callback then throws a `TypeError` on the first citation it reaches (line 37). `Render.RenderSearchResults` returns `Failure(TypeError)` exactly in that case. With no citation in the text nothing is thrown, and `refs` stays undefined (`None`).
- The location default `'global'` applies only when `location` is undefined.
- An undefined `query` that gets a context appended becomes the text `"undefined\n" + context`, as JavaScript's `+=` makes it.

## Model

| member | source | states |
|---|---|---|
| `Wrappers.Coalesce` | server/search.js:26-28 | `a ?? b`: `b` is taken only when `a` is null or undefined, so an empty string is kept (stated for the fields by `References.TitleAndLink` and `References.SnippetAndPage`) |
| `Wrappers.Truthy` | server/search.js:34-38 | truthiness of a string that may be missing: present and non-empty; it is the test on `summaryText` (line 34), on `url` (line 38) and on `context` (line 98) |
| `SearchData.DerivedFields` | server/search.js:22 | `r.document?.derivedStructData?.fields`: absent as soon as one step is absent |
| `SearchData.Prop` | server/search.js:23-29 | `fields?.[key]`: a key that is not an own property reads as undefined |
| `SearchData.StringValue` | server/search.js:26-29 | `v?.stringValue` |
| `SearchData.FirstEntryFields` | server/search.js:23-24 | `v?.listValue?.values?.[0]?.structValue?.fields`: index 0 of an empty list reads as undefined |
| `SearchData.SummaryText` | server/search.js:34 | `data.summary?.summaryText` |
| `References.ExtractReference` | server/search.js:22-30 | the `map` callback: builds title, link, snippet and page by the lookups and `??` fallbacks of lines 26-29 (its properties are the lemmas `TitleAndLink`, `SnippetAndPage`, `NoDataNoFields`, `FieldsComeFromResult`) |
| `References.ExtractRefs` | server/search.js:21-31 | `refs` has exactly one entry per result, in the same order, and entry i is the reference built from result i |
| `References.ExtractRefsAppend` | server/search.js:21 | extraction distributes over concatenation of the result list, so an entry never depends on neighbouring results |
| `References.TitleAndLink` | server/search.js:26-27 | `link` is the link `stringValue` or absent; `title` is the title `stringValue` whenever it is present, the empty string included, and the link `stringValue` otherwise |
| `References.SnippetAndPage` | server/search.js:23-29 | `snippet` is the first extractive answer's `content` when present, else the first snippet entry's `snippet`, else absent; `page` is the first extractive answer's `pageNumber` only |
| `References.NoDataNoFields` | server/search.js:22-30 | a result without `document.derivedStructData.fields` yields a reference whose four fields are all absent |
| `References.FieldsComeFromResult` | server/search.js:25-30 | every present field is a string read from the result itself (title from title or link, snippet from one of the two first entries), and a page implies an extractive answer |
| `ArrayIndex.ValueOfDecimal` | server/search.js:37 | the printed form of an index is a canonical key that denotes that index |
| `ArrayIndex.DecimalOfValue` | server/search.js:37 | a canonical digit key is the printed form of the number it denotes |
| `ArrayIndex.KeyNamesIndex` | server/search.js:37 | a digit string names array element i exactly when it is the printed form of i |
| `ArrayIndex.IsIndexKey` | server/search.js:37 | a digit string that is the canonical spelling of an array index: one or more digits, no leading zero unless it is `0` |
| `Citations.DigitRun` | server/search.js:12 | the greedy `\d+` consumes the longest prefix made only of ASCII digits |
| `Citations.TokenAt` | server/search.js:12 | a match found at the start of the text is a well-formed token `[digits]` |
| `Citations.TokenAtIff` | server/search.js:12 | the pattern matches at the start of the text with digits d exactly when the text begins with `[d]`, d being one or more digits |
| `Citations.Scan` | server/search.js:12 | the scan cuts the text into single characters and non-overlapping tokens that spell the text back exactly, and every token's digits are non-empty ASCII digits |
| `Citations.ScanMaximal` | server/search.js:12-41 | the pieces are exactly the pattern's successive matches: a citation piece stands where the pattern matches with its digits, and a single character only where it does not match, so with `TokenAtIff` the scan is the leftmost, non-overlapping match sequence |
| `Citations.ResolvesIff` | server/search.js:37-38 | a citation becomes a link exactly when its digits are the printed form of an index i of `refs` whose `link` is a non-empty string |
| `Citations.Resolves` | server/search.js:37-38 | the `url ?` test: the link the key reads is a non-empty string (characterised by `ResolvesIff`) |
| `Citations.CitationsIn` | server/search.js:12 | the digit strings of the pattern's matches in the text, left to right, read off the scan (fixed to the regex's matches by `Scan`, `ScanMaximal` and `TokenAtIff`) |
| `Citations.LinkFor` | server/search.js:37 | `refs[citationNumber]?.link` with the digit string as property key: the link of element `DecimalValue(d)` when d is a canonical index key below the length, else absent (characterised by `ResolvesIff`) |
| `Citations.Replacement` | server/search.js:36-39 | the callback: `[[d]](url)` when the url is truthy, else the match `[d]` itself (stated by `CitationOfIndex`, `LiteralExactlyWhenUnresolved`, `OutOfRangeIsLiteral` and `LeadingZeroIsLiteral`) |
| `Citations.LiteralExactlyWhenUnresolved` | server/search.js:38 | the callback returns the match `[d]` unchanged exactly when the citation does not resolve |
| `Citations.OutOfRangeIsLiteral` | server/search.js:37-38 | the token `[i]` for an index past the end of `refs`, or for a reference whose link is missing or empty, is emitted as it is |
| `Citations.ReplaceCitations` | server/search.js:41 | the global `replace`: left to right, each match replaced by the callback's output, scanning resumed after it (stated by `ReplaceBySegments`, `PlainPrefixCopied`, `TokenReplaced`, `UnchangedIffNoneResolve`) |
| `Citations.CitationOfIndex` | server/search.js:37-38 | the token for an index i whose reference has a link is replaced by `[[i]](link)` |
| `Citations.LeadingZeroIsLiteral` | server/search.js:37-38 | a citation spelled with a leading zero never resolves and is emitted as it was |
| `Citations.ReplaceBySegments` | server/search.js:36-41 | the replace rewrites each scanned piece on its own: characters outside tokens are copied verbatim and each token becomes the callback's output |
| `Citations.PlainPrefixCopied` | server/search.js:41 | text before the first `[` is copied verbatim and does not affect how the rest is replaced |
| `Citations.TokenReplaced` | server/search.js:41 | a token is replaced as a whole and scanning resumes right after it, so replacement text is not rescanned |
| `Citations.ReplaceGrows` | server/search.js:36-41 | the replace never shortens the text; it returns the text unchanged when no token resolves, and a longer text when some token does |
| `Citations.UnchangedIffNoneResolve` | server/search.js:36-41 | the output equals the summary text exactly when none of its citations resolves |
| `Citations.PlainPrefixNotCited` | server/search.js:12 | text before the first `[` holds no citation |
| `Citations.TokenCited` | server/search.js:12 | a token at the start of the text is the first citation the scan finds |
| `Citations.OneCitation` | server/search.js:36-41 | in bracket-free text around one token, only that token is replaced |
| `Citations.OneCitationCited` | server/search.js:12 | in bracket-free text around one token, that token is the only citation |
| `Render.Refs` | server/search.js:21 | `refs` is undefined exactly when `results` is, and otherwise is the extracted list |
| `Render.Callback` | server/search.js:36-39 | the callback with `refs` possibly undefined: reading `refs[citationNumber]` throws a `TypeError` when `refs` is undefined, and otherwise the result is `Replacement` |
| `Render.ReplaceOrThrow` | server/search.js:41 | the global `replace` with that callback: called once per match, left to right, and the first exception ends the replace |
| `Render.ReplaceOrThrowOutcome` | server/search.js:36-41 | the replace throws exactly when `refs` is undefined and the text holds a match; with `refs` defined it equals `ReplaceCitations`; with no match it returns the text |
| `Render.RewriteSummary` | server/search.js:36-41 | the summary rewrite, defined as `ReplaceOrThrow`; proved: it throws exactly when `refs` is undefined and the text holds a match, it is the citation replace when `refs` is defined, and it returns the text unchanged when there is no match |
| `Render.RenderSearchResults` | server/search.js:19-51 | the renderer throws only for a citation in a response without `results`; otherwise `refs` is the extracted list, `answer` is absent exactly when `summaryText` is missing or empty, a present `answer` with `refs` defined is the citation-resolved summary, and with `refs` undefined it is the summary text itself |
| `Render.AnswerIsSummaryIffNoneResolve` | server/search.js:33-41 | a present answer equals the summary text exactly when none of its citations names a reference with a link |
| `Render.ResultsPresentNeverThrows` | server/search.js:21-41 | with `results` present the renderer never throws and `refs` mirrors `results` entry by entry |
| `Render.TitleFallbackExample` | server/search.js:26 | a result with no title and link `https://x` gets title `https://x` |
| `Render.SnippetPrecedenceExample` | server/search.js:28 | extractive content `A` wins over snippet text `B` |
| `Render.DocAReference` | server/search.js:21-31 | the end-to-end example's result gives title `Doc A`, link `https://a`, snippet `s1`, no page |
| `Render.DocAAnswer` | server/search.js:36-41 | `Per [0], X is true.` becomes `Per [[0]](https://a), X is true.` when reference 0 links to `https://a` |
| `Render.InRangeCitationExample` | server/search.js:19-51 | the end-to-end example renders to the linked answer and the one reference |
| `Render.OutOfRangeCitationExample` | server/search.js:36-41 | with no references, `See [0].` is kept literally and nothing is thrown |
| `Render.SeeTextCites` | server/search.js:12 | the summary `See [0].` holds exactly one match, with digits `0` |
| `Render.NoSummaryExample` | server/search.js:33-34 | without a summary there is no answer and the references are still built |
| `Render.MissingResultsThrowExample` | server/search.js:21-37 | a citation in a response without `results` makes the renderer throw |
| `SearchFactory.Location` | server/search.js:60 | the destructuring default: the configured location, or `global` when it is undefined |
| `SearchFactory.ApiEndpoint` | server/search.js:60-71 | the host is `discoveryengine.googleapis.com` exactly when the location is `global` or undefined; otherwise it is the location followed by `-discoveryengine.googleapis.com` |
| `SearchFactory.ApiEndpointInjective` | server/search.js:68-71 | two configurations share a host exactly when their effective locations are equal |
| `SearchFactory.ConcatText` | server/search.js:99 | the string `+=` makes of the query: the query itself, or `undefined` when it is undefined |
| `SearchFactory.SentQuery` | server/search.js:98-100 | the query gets `"\n" + context` appended exactly when `context` is truthy, and is otherwise unchanged |
| `SearchFactory.OptionalText` | server/search.js:102-103 | a shorthand property whose variable is undefined still exists and holds undefined; a string is kept as text |
| `SearchFactory.QueryAndContextRecoverable` | server/search.js:98-100 | for a query without a newline and a truthy context, the first line of the query `SentQuery` produces is the query and the rest is the context |
| `SearchFactory.Assign` | server/search.js:101-106 | `Object.assign` gives the union of keys; every source key takes the source's value, and target keys the source does not name keep theirs |
| `SearchFactory.SearchRequest` | server/search.js:98-106 | the request has keys `query`, `filters`, `servingConfig` plus every `searchConfig` key; `searchConfig` values override, and each default that `searchConfig` does not name is kept |

## Left out

- Markdown-to-HTML conversion (`converter.makeHtml`, server/search.js:44). It is a foreign library, so `answer` here is the rewritten markdown.
- Template loading and rendering (server/search.js:9,47-50). This is file I/O plus a foreign template engine; the model returns the `{answer, refs}` value the template receives.
- The undeclared assignment `markdown = ...` (server/search.js:41) creates a global variable. That does not affect the result and is not modelled.
- The search client: its construction, the library-built serving-configuration name (modelled as the parameter `servingConfig`), the asynchronous `client.search` call and the indexing of its response tuple (server/search.js:74-84,108-118). These are network and foreign calls.
- server/index.js is not part of this model: routing, static serving, environment configuration with `JSON.parse` of the search options, and HTTP status handling. Note that it calls the search function with the bare query string, which the parameter destructuring reads as an undefined `query`.
- The destructured parameters `collectionId`, `servingConfigId`, `projectId` and `dataStoreId` feed only the serving-configuration name, which is left out.
- Payload values are assumed to have the types the provider documents: `stringValue` and `summaryText` are strings or missing. Other JavaScript values in those places, and their own truthiness and string conversions, are not modelled.
- SearchFactory.Location: a `null` location is not modelled. JavaScript would print it as `null-discoveryengine.googleapis.com`; only a string or undefined location is covered.
- SearchFactory.SentQuery: `query`, `context` and `filters` are modelled as strings or undefined. A non-string argument and its JavaScript string conversion are not covered.
- SearchFactory.Assign: a source that is a primitive rather than an object is not modelled, and neither is a `__proto__` key, which `Object.assign` applies as a prototype change. Property order is not modelled because the request is a map. Numbers in configured options are modelled as integers.
- Citations.LinkFor: treats any canonical decimal string below `|refs|` as an element. Keys at or above 2^32 - 1 would not be array indices in JavaScript, but a JavaScript array always holds fewer elements than that, so the two readings agree.
- Strings are sequences of Unicode characters, while JavaScript strings are UTF-16 code units. Matching is unaffected, because only ASCII `[`, digits and `]` take part in it and every other character is copied as is. But the lengths in `Citations.ReplaceGrows` count characters, not code units.

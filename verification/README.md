# CoG research-insight core, modelled in Dafny

CoG is a Next.js application. It turns research papers into plain-language
insights tied to the UN Sustainable Development Goals (SDGs). This project
models its server-side core and the pure parts of its client page:

- `GET /api/fetch-pmc`: checks a PubMed Central identifier (PMCID) and
  fetches the article's full-text XML. It extracts the readable text
  (`extractTextFromXml`), refuses texts under 100 characters, truncates very
  long ones and asks the Gemini model for an analysis.
- `POST /api/generate`: accepts an uploaded PDF or pasted text, checks them
  in the handler's order and asks the model for the same analysis.
- `GET /api/search-pmc`: checks the SDG number, builds the E-utilities
  search term, searches for article ids and shapes their summaries into
  papers.
- `buildPrompt`: the instruction text both analysis routes send.
- The client page: goal labels and badge colours, the PDF picker's check,
  the analysis history, and the spreadsheet export's rows and column widths.

Every outgoing call and `JSON.parse` is an oracle function passed in as a
parameter. The recorded calls are the E-utilities `efetch`/`esearch`/`esummary`
requests and the Gemini request; parsing is an oracle but is not recorded.
Each handler returns its response together with the list of calls it made, so the proofs can say which calls a request
caused (for example, that a rejected request never reaches the model).

Modules, one per file:

| module | file | models |
|---|---|---|
| `Common` | `common.dfy` | `Option`, `Result` |
| `JsText` | `jstext.dfy` | the JavaScript string operations the code relies on: `trim`, `replace`, `join`, `parseInt`, `String(n)` |
| `Http` | `http.dfy` | requests, responses, outgoing calls, thrown values |
| `XmlText` | `xmltext.dfy` | `extractTextFromXml` |
| `Reply` | `reply.dfy` | the code-fence cleaning and the end shared by both analysis routes |
| `Prompt` | `prompt.dfy` | `buildPrompt` |
| `FetchPmc` | `fetch_pmc.dfy` | `GET /api/fetch-pmc` |
| `Generate` | `generate.dfy` | `POST /api/generate` |
| `SearchPmc` | `search_pmc.dfy` | `GET /api/search-pmc` |
| `Page` | `page.dfy` | the pure parts of `app/page.tsx` |

`XmlText.DecodeEntities` makes five global replacements in sequence,
`&amp;` first, so `&amp;lt;` becomes `<` (`XmlText.EscapedEntityDecodedTwice`)
and escaped markup comes out as literal markup
(`XmlText.EscapedMarkupSurvives`).

## Model

| member | source | states |
|---|---|---|
| XmlText.ExtractText | app/api/fetch-pmc/route.ts:8-22 | Extraction is total and never lengthens its input. The text it returns has no whitespace at either end and only single plain spaces inside. |
| XmlText.BodyRegionOnly | app/api/fetch-pmc/route.ts:10-11 | For a document laid out as any prefix without `<body`, then `<body attrs>`, a middle with no `</body>`, `</body>`, and anything after: the section is exactly the middle, and the extracted text depends on the middle alone. |
| XmlText.WholeDocumentIffNoMatch | app/api/fetch-pmc/route.ts:10-11 | The whole document is used exactly when the body pattern matches at no index. Any match yields a strictly shorter section. |
| XmlText.NoOpenTagNoBody | app/api/fetch-pmc/route.ts:10-11 | A document without `<body` in any letter case is used whole. |
| XmlText.NoAngleNoBody | app/api/fetch-pmc/route.ts:10-11 | A document with no `<` has no body match, so the whole document is used. |
| XmlText.StripTags | app/api/fetch-pmc/route.ts:14 | Tag stripping never lengthens the text, keeps a non-`<` first character, and leaves no tag for the pattern to match. |
| XmlText.TagBecomesSpace | app/api/fetch-pmc/route.ts:14 | A closed tag `<t>` is replaced by exactly one space and the rest is stripped independently. |
| XmlText.UnterminatedTagRemoved | app/api/fetch-pmc/route.ts:14 | A `<` that is never closed swallows the rest of the text (the `$` branch of the pattern), leaving one space. |
| XmlText.StripTagsKeepsTagFree | app/api/fetch-pmc/route.ts:14 | Text in which no tag can start passes through unchanged. |
| XmlText.StripTagsIdempotent | app/api/fetch-pmc/route.ts:14 | Stripping tags twice gives the same text as stripping them once. |
| XmlText.DecodeLeavesNoEscapes | app/api/fetch-pmc/route.ts:15-19 | After the five passes no `&lt;`, `&gt;`, `&quot;` or `&#39;` is left, whatever the input. A later pass never brings back an entity an earlier pass removed. |
| XmlText.EscapedEntityDecodedTwice | app/api/fetch-pmc/route.ts:15-16 | Because `&amp;` is decoded first, `&amp;lt;` decodes to `<`, not to `&lt;`. |
| XmlText.EscapedAmpersandDecodedOnce | app/api/fetch-pmc/route.ts:15-19 | `&amp;amp;` decodes to `&amp;`: each pass is a single left-to-right scan, so `&amp;` can survive decoding. |
| XmlText.EscapedTagDecoded | app/api/fetch-pmc/route.ts:15-19 | The escaped form `&lt;t&gt;` of a tag (with no `&` in `t`) decodes to the tag `<t>`. |
| XmlText.EscapedMarkupSurvives | app/api/fetch-pmc/route.ts:13-21 | Tags are stripped before entities are decoded, so a document consisting of escaped markup `&lt;t&gt;` is extracted as the literal markup `<t>`. |
| XmlText.CollapseSpaces | app/api/fetch-pmc/route.ts:20 | Each whitespace run becomes one plain space: the result is never longer, and it is collapsed. The first character stays whitespace exactly when it was, and a non-space first character is kept. |
| XmlText.CollapseKeepsCollapsed | app/api/fetch-pmc/route.ts:20 | Text that is already collapsed passes through unchanged. |
| XmlText.NormalizeSpace | app/api/fetch-pmc/route.ts:20-21 | Collapsing and trimming gives collapsed text without edge whitespace that is never longer than the input. |
| XmlText.NormalizeSpaceIdempotent | app/api/fetch-pmc/route.ts:20-21 | Normalizing whitespace a second time changes nothing. |
| XmlText.NormalizeSpaceKeepsAbsent | app/api/fetch-pmc/route.ts:20-21 | Whitespace normalization cannot create a whitespace-free word that was not already in the text. |
| XmlText.ExtractTextLeavesNoEscapes | app/api/fetch-pmc/route.ts:8-22 | No extracted text contains `&lt;`, `&gt;`, `&quot;` or `&#39;`. |
| XmlText.CleanProseIsFixed | app/api/fetch-pmc/route.ts:10-21 | Clean prose is a fixed point of tag stripping, decoding and whitespace normalization, and of the whole extraction. Clean prose means: no tag, no entity, and whitespace already normalized. Such text holds no `<body`, so the whole document is kept. |
| XmlText.TagFreeHasNoBodyOpen | app/api/fetch-pmc/route.ts:10 | Text in which every `<` is followed by `>` contains no `<body` in any case, so the body pattern cannot match it. |
| XmlText.ExtractTextNotIdempotent | app/api/fetch-pmc/route.ts:10-21 | Extraction is not idempotent. Escaped markup `&lt;t&gt;` comes out as the tag `<t>`, and extracting that again gives the empty string. |
| XmlText.ShortTagExtractsEmpty | app/api/fetch-pmc/route.ts:10-21 | A document that is a single short tag `<t>` is too short for a body region. The tag becomes a space, which trimming removes, so the text is empty. |
| JsText.TrimIdempotent | app/api/generate/route.ts:27-28 | Trimming trimmed text changes nothing. |
| JsText.ParseIntRoundTrip | app/api/search-pmc/route.ts:27 | `parseInt` in base 10 reads back every integer written in decimal. |
| FetchPmc.NumericId | app/api/fetch-pmc/route.ts:44 | For an accepted PMCID, removing the first `PMC` leaves exactly the non-empty run of digits after it. |
| FetchPmc.PmcidRoundTrip | app/api/fetch-pmc/route.ts:44 | `PMC` followed by any decimal number is accepted, and its numeric id is that number's digits. |
| FetchPmc.PmcidShape | app/api/fetch-pmc/route.ts:27 | An identifier is accepted exactly when its numeric id is a non-empty digit run and `PMC` plus that id gives the identifier back. |
| FetchPmc.Truncate | app/api/fetch-pmc/route.ts:66-68 | A text of at most 100000 characters is kept as it is. A longer one becomes its first 100000 characters followed by the truncation marker, so no forwarded text exceeds 100000 plus the marker's length. |
| FetchPmc.PaperPrompt | app/api/fetch-pmc/route.ts:66-71 | The article prompt starts with the prompt head, is followed by the text or its truncation, and is bounded in length. |
| FetchPmc.PromptHeadShape | app/api/fetch-pmc/route.ts:71 | The prompt head is the untitled text prompt followed by exactly one blank line. |
| FetchPmc.Analyze | app/api/fetch-pmc/route.ts:42-92 | The fetch is always made first. The answer is 422 exactly when the XML arrived and the extracted text is under 100 characters. The model is asked, once and second, exactly when the text is long enough; then the answer is the model stage's answer for the truncated text. Every non-200 answer is an error. |
| FetchPmc.Get | app/api/fetch-pmc/route.ts:24-93 | A missing or malformed PMCID gives 400 and a missing key gives 500, both before any call and in that order. Otherwise the numeric id is fetched and analysed. A 200 implies both checks passed and both calls were made. |
| FetchPmc.HundredCharactersPass | app/api/fetch-pmc/route.ts:58-63 | A text of exactly 100 characters is not refused and goes to the model. |
| FetchPmc.ModelStageStatus | app/api/fetch-pmc/route.ts:75-92 | After the fetch, the answer is 200 exactly when the model answered and its cleaned reply parsed; otherwise it is 502 with the analysis prefix. |
| FetchPmc.FetchFailureStops | app/api/fetch-pmc/route.ts:46-53 | A fetch that is not `ok` or that throws ends the request with 502 before the model is asked. Not `ok` gives the fetch-failure message; a thrown error gives the analysis prefix and its message. |
| Reply.CleanReply | app/api/fetch-pmc/route.ts:78-81 | The cleaned reply is never longer than the raw reply and has no whitespace at either end. |
| Reply.FencedRoundTrip | app/api/generate/route.ts:80-83 | A trimmed payload wrapped in a code fence is recovered exactly, with or without a `json` tag in any case and with any whitespace around the payload. |
| Reply.JsonFenceRoundTrip | app/api/generate/route.ts:80-83 | The usual wrapping, a `json` fence with the payload on its own lines, is removed exactly. |
| Reply.UnfencedIsTrimmed | app/api/fetch-pmc/route.ts:78-81 | A reply with no fence at either end is only trimmed. |
| Reply.Conclude | app/api/generate/route.ts:77-94 | The answer is 200 with the parsed value exactly when the model answered and its cleaned reply parsed. Otherwise it is 502 whose message starts with the route's prefix. The message carries the thrown error's message, the fallback for a non-`Error` value, or the parser's error. |
| Prompt.TitleLine | lib/prompt.ts:2 | The title line is empty exactly when the title is missing or empty. Otherwise it is `Title: `, the title and a newline. |
| Prompt.PromptLayout | lib/prompt.ts:8-31 | Every prompt opens with the preamble and its mode's description. Exactly `\n\n` follows the description, then the title line at the title offset, and the fixed task list and schema close it. |
| Prompt.EmptyTitleIsNoTitle | lib/prompt.ts:2 | An empty title gives the same prompt as no title. |
| Prompt.TitleInserted | lib/prompt.ts:2-10 | A titled prompt is the untitled prompt with `Title: …\n` spliced in at the title offset, and nothing else changes. |
| Prompt.TasksFollowTitle | lib/prompt.ts:10-15 | The task list starts right after the title line. |
| Prompt.TitleLength | lib/prompt.ts:2 | A title adds exactly its length plus eight characters. |
| Prompt.ModesDifferOnlyInDescription | lib/prompt.ts:3-8 | The pdf and text prompts for the same title differ only in the description sentence: they share the preamble and everything after the description. |
| Prompt.EndsWithSchema | lib/prompt.ts:17-31 | Every prompt ends with the JSON instruction and the schema. |
| Prompt.SchemaKeySets | lib/prompt.ts:19-31 | The schema asks for exactly the keys authors, date_published, journal, sdg_primary, sdg_secondary, summary and lesson. `lesson` holds exactly title, main_summary and why_it_matters. |
| Generate.PastedText | app/api/generate/route.ts:27 | The pasted text is empty exactly when it is missing or all whitespace; otherwise it is the trimmed text, without edge whitespace. |
| Generate.TitleOf | app/api/generate/route.ts:28 | A title that is missing or trims to nothing is no title; otherwise the title is the non-empty trimmed text. |
| Generate.UploadError | app/api/generate/route.ts:37-49 | A file is accepted exactly when its type is `application/pdf` and it is at most 20 MiB. A wrong type is reported whatever the size; only a PDF can be refused for its size. |
| Generate.Post | app/api/generate/route.ts:7-95 | A missing key gives 500, and then an unreadable form gives 400, both without calls. The model is asked, exactly once and with the request for the form, exactly when the key is present and the form is admissible. The answer is then the shared model-stage answer, so a 200 carries the parsed value. A 400 happens exactly when the form is unreadable or inadmissible. |
| Generate.NoContentRejected | app/api/generate/route.ts:30-35 | With no file and missing or blank text the answer is 400 with the no-content message, and nothing is called. |
| Generate.TypeCheckedFirst | app/api/generate/route.ts:37-43 | A file that is not a PDF is refused for its type, whatever its size and whatever text comes with it. |
| Generate.SizeLimitInclusive | app/api/generate/route.ts:44-49 | A PDF of exactly 20 MiB is accepted and one of 20 MiB plus one byte is refused, though the message says "under 20 MB". |
| Generate.FileBeatsText | app/api/generate/route.ts:58-75 | With a file present the pasted text plays no part in the outcome. |
| Generate.TextRequest | app/api/generate/route.ts:72-75 | Without a file the model gets the text prompt for the title, a blank line and the trimmed text. A blank title gives the untitled request. |
| Generate.ModelStageOutcome | app/api/generate/route.ts:52-94 | An admissible form leads to one model call. The answer is 200 exactly when the model answered and the cleaned reply parsed; otherwise it is 502 with the generation prefix and the thrown error's message. |
| SearchPmc.Keywords | app/api/search-pmc/route.ts:28 | The keywords are the trimmed parameter, or empty when it is missing. |
| SearchPmc.SdgAcceptedIff | app/api/search-pmc/route.ts:27-35 | A goal number written in decimal is accepted exactly when it lies in 1..17. |
| SearchPmc.SdgMissingOrNotNumeric | app/api/search-pmc/route.ts:27-35 | A missing goal parameter, or one that `parseInt` cannot read, is refused. |
| SearchPmc.SearchTermParts | app/api/search-pmc/route.ts:37-39 | The term is the base query, then ` AND (keywords)` when the trimmed keywords are not empty, then the open-access filter. |
| SearchPmc.BlankKeywordsNoClause | app/api/search-pmc/route.ts:28-38 | Blank keywords add no clause. |
| SearchPmc.Search | app/api/search-pmc/route.ts:25-85 | A goal outside 1..17 gives 400 with no call. Otherwise the search for the goal's term is the first call. A thrown or failed search ends there with 502, `PMC search failed: ` and the error or the search-failure message. A non-empty id list is followed by the summary request for exactly those ids. A failed summary gives 502 with the summary-failure message, and a delivered one gives 200 with the ids' shaped papers. The model is never asked. |
| SearchPmc.EmptyIdsNoSummary | app/api/search-pmc/route.ts:50-52 | An empty id list answers 200 with no papers and makes no summary request. |
| SearchPmc.PaperAuthors | app/api/search-pmc/route.ts:67-70 | The authors field is never empty. It is the joined author names when that is not empty, else the first author, else `Unknown`. |
| SearchPmc.ShapePaper | app/api/search-pmc/route.ts:64-73 | A paper's PMCID is `PMC` plus its id and its title is the summary's. Its authors are the author fallback chain. Its journal and date are the summary's values when present and non-empty, `Unknown` otherwise, so none of the three is ever empty. |
| SearchPmc.ShapePapers | app/api/search-pmc/route.ts:61-74 | There are never more papers than ids, and every paper has non-empty authors, journal and date. |
| SearchPmc.ShapePapersAppend | app/api/search-pmc/route.ts:61-74 | Shaping distributes over concatenation of id lists, so papers come out in id order. |
| SearchPmc.ShapePapersAllKnown | app/api/search-pmc/route.ts:61-74 | When every id has a summary, paper i is the shaped summary of id i: nothing is dropped or reordered. |
| SearchPmc.ShapePapersMembers | app/api/search-pmc/route.ts:61-74 | A paper is listed exactly when some id with a summary shapes to it. |
| SearchPmc.UnknownIdsDropped | app/api/search-pmc/route.ts:61-74 | Ids without a summary leave no trace: adding one at either end changes nothing. |
| Page.GoalTables | app/page.tsx:6-44 | The label table and the colour table are keyed by exactly the goals 1..17. |
| Page.BadgeColorFallback | app/page.tsx:85 | Every goal has its own colour, never the grey fallback; every other number gets `bg-gray-500`. |
| Page.PromptOmitsClientKeys | app/page.tsx:58-68 | The prompt asks for every key of the client's result type except `location_constraint` and `challenges`, which the client must treat as possibly missing. |
| Page.HandleFile | app/page.tsx:129-141 | Picking nothing changes nothing. A file the server would refuse sets the same message the server would give and keeps the previous file. A file the server accepts clears the error and is selected. |
| Page.AddToHistory | app/page.tsx:121-126 | The new entry, stamped with the given time, is appended; earlier entries are unchanged. |
| Page.ExportRow | app/page.tsx:248-275 | Every row has one cell per header, eighteen in all. |
| Page.ExportRowsAppend | app/page.tsx:248-275 | Adding an entry to the history adds its row at the end of the export and leaves the other rows unchanged. |
| Page.ExportRowPlainCells | app/page.tsx:248-262 | Source, time, summary, lesson title, main finding and why-it-matters are copied. Authors, journal, date and location are copied when present and become the empty string when missing. |
| Page.ExportRowComputedCells | app/page.tsx:255-274 | The primary-goal cell is at column 6 and the secondary-goals cell at column 7. From column 12 on, each of the three challenges has a text cell followed by its location cell. |
| Page.PrimaryCellLabel | app/page.tsx:255 | The primary cell is exactly `SDG n — ` followed by the goal's label, which is never empty for a goal; for any other number the label part is empty. |
| Page.SecondaryCellEmpty | app/page.tsx:256-258 | The secondary cell is empty exactly when there are no secondary goals. |
| Page.SecondaryCellAppend | app/page.tsx:256-258 | One more secondary goal adds `, SDG k` to a non-empty cell. |
| Page.ChallengeCells | app/page.tsx:263-274 | Challenge k fills its cell with `title: description` and its location cell with the location or nothing when it exists; both cells are empty otherwise. |
| Page.OnlyThreeChallenges | app/page.tsx:263-274 | Challenges after the third do not affect the row. |
| Page.ColumnWidths | app/page.tsx:280-286 | No rows give no widths; otherwise there is one width per column, none above 60. |
| Page.ColumnWidthRule | app/page.tsx:280-286 | A width is at least the header's and every cell's length plus two, capped at 60. It is 60 exactly when the header or some cell has 58 or more characters; below 60 it is some header's or cell's length plus two. |
| Page.HistoryWidths | app/page.tsx:280-286 | An empty history gives no widths; any other gives eighteen, each at most 60. |

## Left out

- The network and the model: `fetch`, the E-utilities service, the
  Gemini client and `JSON.parse` are oracle parameters. What they answer is
  not modelled; what the handlers do with each possible answer is.
- Reading the environment and the clock: the API key and
  `new Date().toISOString()` are parameters.
- The base64 encoding of an uploaded PDF: the model request carries the
  PDF's bytes.
- The JSON grammar: a parsed value is an opaque `Json` and the routes
  return it untouched.
- The per-goal base queries: `SDG_QUERIES` lives in `lib/sdg-queries.ts`,
  which is not part of this model. `SearchPmc.Search` takes the table as a
  parameter.
- The URL construction (`encodeURIComponent`, `retmax=10`, `sort=date`,
  joining ids with commas): a call records the term, the id or the id list
  it was made for.
- Response shapes the code's type annotations assume: a search result
  without `esearchresult.idlist` or a summary result without `result`
  would throw inside the `try` and give a 502. The model takes the id list
  and the summary map as given.
- Form fields of the wrong type: `formData.get` returning a string for
  `file`, or a `File` for `text`. The casts are taken at their word.
- Text lengths: a Dafny `char` is one Unicode scalar value, while
  JavaScript's `length` and `slice` count UTF-16 code units. The counts
  agree on text inside the Basic Multilingual Plane. For text with
  characters outside it (mathematical letters, emoji), the 100-character
  gate, the 100000-character cut-off and the export's column widths count
  differently from the program, and the program's cut can split a
  surrogate pair, which the model cannot represent.
- React state, rendering, CSS and the XLSX workbook itself: the page model
  covers the data the handlers compute (error line, selected file,
  history, rows, widths), not how it is shown.
- Number precision: `parseInt` returns a double, so very long digit runs
  lose precision. Any such number is far above 17 and is refused in the
  model as in the code.
- Page.ExportRow: its goal labels come as a parameter, and the page always
  passes `SdgLabels`. `Page.PrimaryCellLabel` states the cell for that
  table.
- Page.ExportRowComputedCells: places the computed cells only; their
  contents are stated by `PrimaryCellLabel`, `SecondaryCellEmpty` and
  `ChallengeCells`.

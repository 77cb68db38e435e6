# VKO digest service: the document harvesters, modelled in Dafny

The service collects new legal and regulatory documents from four official Russian sources:

- **kremlin.ru.** A paged search listing, plus the text of one act page.
- **The Bank of Russia.** An RSS feed of regulatory acts, an RSS feed of draft acts, and the PDF downloader's choice of file name.
- **The Federal Treasury (roskazna.gov.ru).** An RSS news feed whose descriptions hold HTML.
- **The Accounts Chamber (ach.gov.ru).** A JSON list of audits.

Each harvester turns raw items into records, keeping only items on or after a caller-given date. Each reads "on or after" differently. This project models that logic and proves what each step guarantees.

The network, the HTML and XML libraries and the JSON decoder are not modelled. Their results are inputs:

- A fetched listing page is a `PageResponse`: the entries found, or the kind of exception raised.
- An RSS item is a map from child tag to its optional text.
- The Treasury's HTML parser is a function from a fragment to the text chunks it reports.
- BeautifulSoup's `get_text` and `urllib.parse.unquote` are function parameters.
- The audit list is a datatype mirroring the JSON object.

Files, one module each:

- `wrappers.dfy`: `Option` and `Result`.
- `seqs.dfy`: `FilterMap`. This is the "append every non-`None` result, in order" loop shared by all harvesters, with its lemmas.
- `strings.dfy`: Python's `str.strip`, `split()`, `' '.join`, `str.replace`, zero-padded numbers and case folding.
- `dates.dfy`: naive datetimes and their ordering. It also holds `strptime` for `"%a, %d %b %Y %H:%M:%S %z"` and `"%d %B %Y"`, and the `strftime`/`isoformat` outputs.
- `utils.dfy`: `drop_nbsp`, and the level and log-path rules of `setup_logging`.
- `rss.dfy`: RSS items.
- `kremlin_handler.dfy`, `cbr_handler.dfy`, `roskazna_handler.dfy`, `ach_handler.dfy`: one per harvester.

Loops in the source are methods with loops in the model. Each method is proved equal to a specification function, and the lemmas state the properties of that function. The Treasury's `TextExtractorHTMLParser` is a class whose `HandleData` method appends to its `parts` field.

## Model

| member | source | states |
|---|---|---|
| Utils.DropNbsp | utils.py:71-78 | same length as the input; no U+00A0 in the result; every other character unchanged at its position; each U+00A0 becomes `' '` |
| Utils.DropNbspIsReplace | kremlin_handler.py:338-345 | the character-wise definition equals `text.replace('\xa0', ' ')` as modelled by `Strings.Replace` (the copy in the Kremlin module is the same function) |
| Utils.DropNbspIdempotent | utils.py:78 | applying `drop_nbsp` twice gives the same as once |
| Utils.DropNbspOfClean | utils.py:78 | a text without U+00A0 is returned unchanged |
| Utils.DropNbspKeepsStripped | utils.py:78 | a text with no whitespace at either end keeps that property |
| Utils.NormalizeLevel | utils.py:23-24 | the result is one of the five level names; a valid level is kept; anything else becomes `"DEBUG"` |
| Utils.NormalizeLevelIdempotent | utils.py:23-24 | normalising twice equals normalising once |
| Utils.DefaultLogPath | utils.py:42-43 | the default path starts with `logs/` and ends with `.log` |
| Utils.ResolveLogFilePath | utils.py:40-43 | `None` stays `None` (console only); `"default"` becomes `logs/{logger_name}.log`; any other path is unchanged |
| Utils.ResolveLogFilePathIdempotent | utils.py:42-43 | resolving an already resolved path changes nothing |
| Seqs.FilterMapSnoc | roskazna_handler.py:73-77 | the append-if-not-`None` loop, one more item: the result grows by that item's record, if it has one |
| Seqs.FilterMapMember | roskazna_handler.py:73-77 | a record is in the result exactly when some item yields it |
| Strings.StripIsStripped | roskazna_handler.py:27 | what `strip()` returns has no Python whitespace at either end |
| Strings.StripIdempotent | roskazna_handler.py:173 | `strip()` of a stripped text is that text |
| Strings.JoinStripped | roskazna_handler.py:33 | joining non-empty stripped parts with `' '` gives a stripped text, empty exactly when there are no parts |
| Strings.CollapseIsCollapsed | kremlin_handler.py:155 | `' '.join(s.split())` has no leading, trailing, repeated or non-space whitespace |
| Strings.Words | kremlin_handler.py:155 | `split()` returns non-empty words with no whitespace in them |
| Strings.CollapseEmptyIff | kremlin_handler.py:155 | the collapsed text is empty exactly when every character is whitespace |
| Strings.CollapseIdempotent | kremlin_handler.py:155 | collapsing keeps the words and collapsing twice equals collapsing once |
| Strings.WordsOfJoin | kremlin_handler.py:155 | `split()` of words joined by single spaces gives back those words |
| Strings.RemoveChangesIff | kremlin_handler.py:325 | `s.replace(pat, '')` changes `s` exactly when `pat` occurs in it |
| Strings.RemoveShrinksOnOccurrence | kremlin_handler.py:325 | removing a pattern that occurs shortens the text by at least its length |
| Strings.RemoveNeverGrows | kremlin_handler.py:325 | `s.replace(pat, '')` is never longer than `s` |
| Strings.ReplaceAbsent | utils.py:78 | `replace` of a pattern that does not occur returns the text unchanged |
| Strings.PaddedRoundTrip | roskazna_handler.py:120 | a zero-padded number that fits its width reads back as the number |
| Dates.BeforeAgreesWithDates | roskazna_handler.py:117 | an earlier calendar day is an earlier instant; an earlier instant is never on a later day |
| Dates.BeforeIsStrictTotalOrder | cbr_handler.py:165 | Python's `<` on naive datetimes is irreflexive, transitive and total |
| Dates.ParseRssDate | roskazna_handler.py:182-199 | `strptime(s, "%a, %d %b %Y %H:%M:%S %z")`: a result is a valid datetime (seconds 60 and 61 rejected) with no microseconds; the offset is checked and dropped |
| Dates.RssDateRoundTrip | cbr_handler.py:158-162 | every RFC 2822 date-time written with any weekday name, zero-padded fields and any offset up to ±23:59 parses back to its wall-clock time |
| Dates.SampleRssDate | cbr_handler.py:158 | `"Mon, 29 Dec 2025 16:43:00 +0300"` parses to 16:43:00 on 29 December 2025 |
| Dates.ParseRuDate | ach_handler.py:84-85 | `strptime(s, "%d %B %Y")` with Russian genitive month names: a result is a valid datetime at midnight |
| Dates.RuDateRoundTrip | ach_handler.py:84-85 | every date written as day, genitive month name and four-digit year parses back to the midnight of that day |
| Dates.SampleRuDate | ach_handler.py:84 | `"27 января 2026"` parses to midnight of 27 January 2026 |
| Dates.FormatYmdReadsBack | roskazna_handler.py:120 | `strftime('%Y-%m-%d')` is ten characters with `-` at positions 4 and 7, and its digit groups read back as year, month and day |
| Dates.FormatDdMmYyReadsBack | kremlin_handler.py:222-223 | `strftime("%d.%m.%y")` is eight characters with dots at positions 2 and 5; its digit pairs read back as day, month and year mod 100 |
| KremlinHandler.CutOut | kremlin_handler.py:324-327 | one cleaning step never lengthens the title and keeps it free of U+00A0; with a non-empty text to cut, the result is stripped and free of U+00A0 |
| KremlinHandler.CleanTitleAsWritten | kremlin_handler.py:321-327 | the title as `get_text(strip=True)` gives it when meta and date are both empty; otherwise stripped and free of U+00A0; never longer than the raw title |
| KremlinHandler.CleanTitle | kremlin_handler.py:323-327 | the cleaned title has no U+00A0, and is stripped when meta or date is non-empty |
| KremlinHandler.CleanTitleRemovesMeta | kremlin_handler.py:324-325 | when the meta text occurs in the title, at least its length is cut out |
| KremlinHandler.CleanTitleRemovesDate | kremlin_handler.py:326-327 | when the date text occurs in what the meta step left, at least its length is cut out |
| KremlinHandler.CleanTitleAsWrittenRemovesMeta | kremlin_handler.py:324-325 | as written: when the meta text occurs in the raw title, at least its length is cut out |
| KremlinHandler.CleanTitleAsWrittenRemovesDate | kremlin_handler.py:326-327 | as written: when the date text occurs in what the meta step left, at least its length is cut out |
| KremlinHandler.CleanTitleAgreesWithoutNbsp | kremlin_handler.py:321-327 | on a title without U+00A0 the cleaning as written and the corrected one give the same title |
| KremlinHandler.CleanTitleAsWrittenKeepsSpacedMeta | kremlin_handler.py:311-327 | for title `"x\xa0y"` and meta `"x y"`, the cleaning as written returns `"x y"` and the corrected one returns `""` |
| KremlinHandler.ParseSingleDocumentEntry | kremlin_handler.py:298-335 | `None` exactly when the heading, its link or a non-empty `href` is missing. Otherwise: link = base URL + `href`; meta is the span's text with U+00A0 replaced, or `""` without the span; date likewise from `<time>`; datetime is the attribute, or `""` without `<time>`; the title is the anchor text with the meta and then the date text cut out (`CleanTitleAsWritten`): the raw anchor text when both are empty, otherwise stripped and free of U+00A0, never longer |
| KremlinHandler.ExtractArticleTextWithOptions | kremlin_handler.py:133-174 | the paragraph loop returns `ArticleText`: the kept paragraph texts joined by the separator, or `None` |
| KremlinHandler.KeptParagraphOrigin | kremlin_handler.py:148-166 | a text is kept exactly when some paragraph, numbered by its 1-based position in the article, formats to it (so numbers may skip) |
| KremlinHandler.KeptParagraphsCollapsed | kremlin_handler.py:154-159 | with whitespace collapsing on, every kept paragraph is non-empty and collapsed |
| KremlinHandler.ArticleTextNoneIff | kremlin_handler.py:133-174 | `None` exactly when there is no article, or no paragraph whose cleaned text is non-empty (including no paragraph at all) |
| KremlinHandler.ParagraphDroppedIff | kremlin_handler.py:154-159 | with collapsing on, a paragraph is dropped exactly when it is all whitespace |
| KremlinHandler.GetLatestKremlinDocs | kremlin_handler.py:218-282 | the stopping page exists among the given pages; the documents are `Collected` over the pages before it; the requests are exactly pages 1 to stop+1 |
| KremlinHandler.CollectPage | kremlin_handler.py:254-263 | the entries that parse, in order; an entry that raises or yields `None` is skipped |
| KremlinHandler.StopIndex | kremlin_handler.py:240-251 | the loop stops at the first page without a `div.events` container or without entries; every earlier page had entries |
| KremlinHandler.Queries | kremlin_handler.py:221-227 | one request per page requested |
| KremlinHandler.QueriesNumberPages | kremlin_handler.py:221-268 | both dates as `DD.MM.YY` on every request; no `page` on the first; request `j` carries `page = j + 1` after that, so pages run 1, 2, … without gaps |
| KremlinHandler.StopIndexAt | kremlin_handler.py:240-251 | when pages 1..n have entries and page n+1 has none, the loop stops at page n+1 |
| KremlinHandler.ErrorEndsHarvest | kremlin_handler.py:274-282 | a request or unexpected error on page n+1 ends the loop with exactly the documents of pages 1..n |
| KremlinHandler.EmptyFirstPage | kremlin_handler.py:240-251 | an empty or container-less first page yields no documents |
| KremlinHandler.CollectedGrows | kremlin_handler.py:258 | the list only grows: what is collected after m pages is a prefix of what is collected after n ≥ m pages |
| KremlinHandler.CollectedMember | kremlin_handler.py:254-258 | a document is collected exactly when it comes from an earlier page |
| KremlinHandler.PageDocumentsMember | kremlin_handler.py:254-258 | a document is on a page's list exactly when one of its entries parses to it |
| CbrHandler.EnsureScheme | cbr_handler.py:41-42 | the URL starts with `http://` or `https://`; a URL already starting so is unchanged, any other gets `https://` in front |
| CbrHandler.EnsureSchemeIdempotent | cbr_handler.py:41-42 | fixing the scheme of a fixed URL changes nothing |
| CbrHandler.RunWithout | cbr_handler.py:54-60 | the longest prefix of the text free of the stop characters: a prefix, none of its characters stops, and the next one does |
| CbrHandler.Utf8FilenameFrom | cbr_handler.py:54 | a group found for `filename*=utf-8''([^;]+)` is non-empty and holds no `;` |
| CbrHandler.Utf8FilenameFromFinds | cbr_handler.py:54 | the search finds a group exactly when the pattern matches, ignoring case, at some position |
| CbrHandler.Utf8FilenameFromLeftmost | cbr_handler.py:54 | a group found is that of a match with no match to its left |
| CbrHandler.PlainMatchAt | cbr_handler.py:60 | a match of `filename=(["']?)([^;"']+)\1` at one position yields a non-empty name without `;`, `"` or `'` |
| CbrHandler.PlainFilenameFrom | cbr_handler.py:60 | a group found is non-empty and holds no `;`, `"` or `'` |
| CbrHandler.PlainFilenameFromFinds | cbr_handler.py:60 | the search finds a group exactly when some position matches |
| CbrHandler.PlainFilenameFromLeftmost | cbr_handler.py:60 | a group found is that of a match with no match to its left |
| CbrHandler.QuotedFilenameMatches | cbr_handler.py:60 | `filename=` followed by a name between two equal quotes matches with the name as the group |
| CbrHandler.BareFilenameMatches | cbr_handler.py:60 | `filename=` followed by an unquoted name that runs to `;`, a quote or the end matches with that name |
| CbrHandler.RunWithoutOf | cbr_handler.py:54-60 | a run of allowed characters followed by a stop character or the end is exactly what the class reads |
| CbrHandler.ExtendedFilenameFirst | cbr_handler.py:53-56 | a `filename*` value that decodes to a non-empty name wins over everything else |
| CbrHandler.PlainFilenameSecond | cbr_handler.py:58-62 | without a usable `filename*`, a `filename=` value that decodes to a non-empty name is taken |
| CbrHandler.UrlFilenameWithoutHeader | cbr_handler.py:64-75 | when the header is missing or yields no name, the name is the last segment of the final URL without its query; a segment of fewer than 3 characters is replaced by the last segment of the scheme-fixed URL, trailing `/` removed, plus `.pdf` |
| CbrHandler.LastSegment | cbr_handler.py:68 | `split('/')[-1]`: a suffix without `/`, preceded by `/` unless it is the whole text |
| CbrHandler.RStripSlashes | cbr_handler.py:73 | `rstrip('/')`: a prefix not ending in `/`, and everything removed is `/` |
| CbrHandler.UrlFilename | cbr_handler.py:65-75 | the URL-derived name has at least 3 characters |
| CbrHandler.RawFilename | cbr_handler.py:49-75 | the name before the suffix step is never empty |
| CbrHandler.PdfEndsAtIgnoresCase | cbr_handler.py:81 | the four-character test of the model is `lower().endswith('.pdf')` on the text up to that position |
| CbrHandler.PdfRun | cbr_handler.py:78 | the number of consecutive `.pdf` (any case) ending at a position; positive exactly when one ends there |
| CbrHandler.PdfRunMaximal | cbr_handler.py:78 | no further `.pdf` ends where the run starts, so `(\.pdf)+` takes the whole run |
| CbrHandler.SubjectEnd | cbr_handler.py:78 | `$` matches at the end or just before a final newline |
| CbrHandler.FixPdfSuffixAppends | cbr_handler.py:78-82 | without a trailing run of `.pdf`, `.pdf` is appended |
| CbrHandler.FixPdfSuffixCollapses | cbr_handler.py:78 | a trailing run of `.pdf` in any case becomes one lower-case `.pdf` |
| CbrHandler.FixPdfSuffixBeforeNewline | cbr_handler.py:78-82 | a run before a final newline is collapsed, the newline kept, and `.pdf` appended after it |
| CbrHandler.FixPdfSuffixShape | cbr_handler.py:78-82 | the final name ends with lower-case `.pdf` and the stem before it does not end with `.pdf` in any case |
| CbrHandler.FixPdfSuffixOfSingle | cbr_handler.py:78-82 | a name already of that shape is unchanged |
| CbrHandler.FixPdfSuffixIdempotent | cbr_handler.py:78-82 | the suffix step applied to its own output changes nothing |
| CbrHandler.DownloadFilename | cbr_handler.py:40-82 | the chosen file name ends with `.pdf` once, not twice in any case, and is a fixed point of the suffix step |
| CbrHandler.OptionalText | cbr_handler.py:169-170 | a missing child gives `""`; a present child gives `None` (the item is skipped) exactly when it has no text, and otherwise its stripped text |
| CbrHandler.CbrItem | cbr_handler.py:142-185 | a kept item has title, link and pubDate with text; title, link and pubDate are their children's stripped texts, and so are guid and description when those children exist; the pubDate parses to a time strictly later than `start`, written by `isoformat` into `pub_date_parsed`; every field is stripped; a missing guid or description gives `""` |
| CbrHandler.CbrItemKeptIff | cbr_handler.py:156-165 | an item whose texts are present is kept exactly when its date parses and is strictly later than `start` |
| CbrHandler.CbrCutoffIsStrict | cbr_handler.py:165 | an item published exactly at `start` is not kept |
| CbrHandler.GetLatestCbrDocs | cbr_handler.py:127-198 | fetch and parse errors are raised again unchanged; otherwise the result is `CbrDocuments`, the kept items in feed order |
| CbrHandler.CbrDocumentsAreLater | cbr_handler.py:142-175 | every returned document comes from a feed item and was published strictly after `start` |
| CbrHandler.DraftActOf | cbr_handler.py:239-253 | each of the six fields equals the text of the child of that tag when the child exists, and is `None` when it does not |
| CbrHandler.GetCentralBankDraftRegulatoryActs | cbr_handler.py:221-264 | `None` exactly on a fetch or parse error; otherwise one record per item, in order |
| Rss.ChildText | cbr_handler.py:247-252 | the child's text when the child exists (`None` when it has none), and `None` when it does not |
| RoskaznaHandler.StrippedData | roskazna_handler.py:27-28 | a chunk is kept exactly when its stripped text is non-empty; what is kept is that stripped text |
| RoskaznaHandler.KeptPartsStep | roskazna_handler.py:25-29 | one more chunk appends its stripped text, unless that is empty |
| RoskaznaHandler.KeptPartsMember | roskazna_handler.py:25-29 | a part is collected exactly when it is the non-empty stripped text of some chunk; every part is stripped |
| RoskaznaHandler.TextExtractor.constructor | roskazna_handler.py:21-23 | a new extractor has no parts |
| RoskaznaHandler.TextExtractor.HandleData | roskazna_handler.py:25-29 | the parts become the old parts plus the stripped chunk when that is non-empty; parts stay non-empty and stripped |
| RoskaznaHandler.TextExtractor.ConcatenatedTextStripped | roskazna_handler.py:31-33 | the joined text has no whitespace at either end and is `""` exactly when no part was added |
| RoskaznaHandler.HtmlText | roskazna_handler.py:202-216 | there is a text exactly when the parser does not raise on the fragment |
| RoskaznaHandler.HtmlTextStripped | roskazna_handler.py:202-216 | when the parser reads the fragment, its text is stripped, and empty exactly when every chunk is whitespace |
| RoskaznaHandler.GetWholeHtmlElementText | roskazna_handler.py:202-216 | `None` when the parser raises; otherwise feeding every chunk to a fresh extractor yields `HtmlText`, the kept parts joined by spaces |
| RoskaznaHandler.GetElementText | roskazna_handler.py:158-159 | `None` exactly when the child is missing or its text is absent or empty; otherwise the stripped text |
| RoskaznaHandler.CleanCdata | roskazna_handler.py:173-179 | the result is stripped |
| RoskaznaHandler.WrapperDoesNotOverlap | roskazna_handler.py:176-177 | a text starting with `<![CDATA[` and ending with `]]>` has at least 12 characters, so the slice `[9:-3]` is well defined |
| RoskaznaHandler.CleanCdataUnwraps | roskazna_handler.py:173-179 | a text that, once stripped, is `<![CDATA[` + content + `]]>` gives the stripped content |
| RoskaznaHandler.CleanCdataOfPlain | roskazna_handler.py:173-179 | a text that, once stripped, does not both start with `<![CDATA[` and end with `]]>` gives its stripped self |
| RoskaznaHandler.WrappedHasContent | roskazna_handler.py:176-177 | a stripped text with both markers is the markers around its `[9:-3]` slice, so the two lemmas above cover every input |
| RoskaznaHandler.NewsItem | roskazna_handler.py:108-144 | a kept item has a date that parses, whose calendar day is not before `start`'s; `pub_date` is that day as `YYYY-MM-DD`; title and description are present and the parser reads the cleaned description; link is `get_element_text` of `link`; title is `clean_cdata` of the title text; meta is the extractor's text of `clean_cdata` of the description; both are stripped |
| RoskaznaHandler.NewsRecord | roskazna_handler.py:126-142 | a record exists exactly when title and description are present and the parser does not raise on the cleaned description (the swallowed error leaves `news_description` unbound, and the outer handler returns `None`); link and `pub_date` are as given; title is `clean_cdata` of the title text and meta the extractor's text of `clean_cdata` of the description, both stripped |
| RoskaznaHandler.SameDayKept | roskazna_handler.py:117 | an item published on `start`'s calendar day, with a title and a description the parser reads, is kept, whatever the time |
| RoskaznaHandler.NewsItemKeptIff | roskazna_handler.py:110-123 | an item with date, title and a description the parser reads is kept exactly when its date parses to a day not before `start`'s |
| RoskaznaHandler.ParserErrorDropsItem | roskazna_handler.py:128-142 | an item on whose cleaned description the parser raises is dropped, whatever its date |
| RoskaznaHandler.GetLatestRoskaznaDocs | roskazna_handler.py:55-91 | fetch and parse errors are raised again; otherwise the result is `RoskaznaDocuments`, the kept items in feed order |
| RoskaznaHandler.RoskaznaDocumentsNotEarlier | roskazna_handler.py:73-77 | every returned document comes from a feed item, and its `pub_date` is a day not before `start`'s |
| AchHandler.AuditItems | ach_handler.py:61-69 | a request or JSON error gives no items; otherwise `result.items`, with a missing key giving none |
| AchHandler.ReportLink | ach_handler.py:96-97 | the first report's `SRC`, or `None` when there are no reports |
| AchHandler.AchItemDoc | ach_handler.py:76-110 | a kept audit has a date that parses to the record's `pub_date`, a midnight not before `start`; id, title and link are taken as given; meta is `get_text()` of `PREVIEW_TEXT` (or `""` without it), stripped |
| AchHandler.AchItemKeptIff | ach_handler.py:94 | an audit with a readable date is kept exactly when that date is not earlier than `start` |
| AchHandler.AchDocumentsStep | ach_handler.py:76-110 | one more item appends its record, if it has one |
| AchHandler.GetAchLatestDocs | ach_handler.py:54-114 | the result is `AchDocuments`, the kept audits in API order; a request or JSON error gives `[]` |
| AchHandler.AchDocumentsNotEarlier | ach_handler.py:76-110 | every returned audit comes from the item list and its date is a midnight not before `start` |
| AchHandler.CutoffRulesNested | ach_handler.py:94 | strictly later (Bank of Russia, cbr_handler.py:165) implies not earlier (Accounts Chamber), which implies not on an earlier day (Treasury, roskazna_handler.py:117) |
| AchHandler.CutoffRulesDiffer | ach_handler.py:94 | the cutoff instant itself is dropped by the strict rule and kept by the other two; an hour earlier on the same day is dropped by the Accounts Chamber rule and kept by the Treasury rule |

## Left out

- HTTP transport is not modelled. This covers `requests.get`, `raise_for_status`, headers, certificates and timeouts. `get_webpage_as_xml_tree` (kremlin_handler.py:16-103) is not part of this model, and neither are the file creation and writing in `download_cbr_pdf` (cbr_handler.py:84-98). Responses are inputs, and transport failures are error variants.
- HTML and XML parsing is not modelled (BeautifulSoup, lxml XPath, ElementTree, `HTMLParser` tokenisation). Their results are inputs: entries, item maps, data chunks and the `get_text` function. The data chunks are `None` when `HTMLParser.feed` raises on a fragment.
- `unquote` is a function parameter. Percent-decoding is not modelled.
- Case-insensitive matching folds ASCII and basic Cyrillic letters only. Python's `re.IGNORECASE` also matches dotless `ı` and `İ` with `i`, and `ſ` with `s`; a header using those is not recognised by the model.
- The date parsers accept ASCII digits only. Python's `\d` also accepts other Unicode decimal digits.
- `locale.setlocale(LC_TIME, 'ru_RU.UTF-8')` (ach_handler.py:30-34) is not modelled. It changes process-global state. The model assumes the C locale for `%a`/`%b` and the Russian genitive month names for `%B`, and does not model the failure of `setlocale` or its effect on the other harvesters' parsing.
- Dates.FormatYmd: writes the year with four digits; glibc's `%Y` does not pad years below 1000, so for such years the model's output differs.
- The defaults of `get_latest_kremlin_docs` (kremlin_handler.py:181) are not modelled. `end_date=datetime.today()` is evaluated once, when the module is imported; the model takes `endDate` as a required parameter. `delay_between_requests` (default 1.0) only sets the sleep below.
- CleanCdata: its own contract states only that the result is stripped. Its value is stated by `CleanCdataUnwraps` and `CleanCdataOfPlain`, which `WrappedHasContent` shows to cover every input.
- `time.sleep` between pages (kremlin_handler.py:271-272) does not change results and is not modelled.
- Logging calls, and the handler and formatter wiring of `setup_logging`, are not modelled. The `print` calls are not modelled either.
- The default logger name (the caller's file stem, utils.py:19-21) is a parameter.
- Start dates are naive datetimes; an aware `start_date` is not modelled. Its effect differs by harvester:
  - the Federal Treasury harvester compares `.date()` values (roskazna_handler.py:117), which never raise;
  - the Central Bank harvester compares it with a naive publication time (cbr_handler.py:165); the `TypeError` is caught per item (cbr_handler.py:183-185), so every item is skipped and the result is `[]`, although the docstring (cbr_handler.py:109-110) asks for an aware start date;
  - the Accounts Chamber harvester compares it at ach_handler.py:94, outside any handler, so the error escapes to the caller.
- JSON values of unexpected types are not modelled: a non-object body, a `null` `result`, `FILES` or `PREVIEW_TEXT`, or a non-string `ID`/`NAME`. On these the source raises.
- Past the pages given, the model's site answers an empty listing, so the page loop always ends.
- The page loop ends only at a page without the `events` container or without entries, or on an error (kremlin_handler.py:240-251, kremlin_handler.py:274-282). It has no cutoff-based stop and no page limit.
- `get_ach_latest_docs` returns `[]` on request and JSON errors (ach_handler.py:61-66), as its docstring says.
- In `download_cbr_pdf`, the fallback `'downloaded'` (cbr_handler.py:74) is unreachable, because `split('/')` never returns an empty list. The model has no such branch.

## Findings

| source | as written | input that shows it | evidently intended | confidence | as-written member | corrected member |
|---|---|---|---|---|---|---|
| kremlin_handler.py:323-327 | Meta and date texts are normalised with `drop_nbsp` (lines 311, 315) before being cut out of the title, but the title is not normalised first. A meta text that the page writes with U+00A0 is therefore never found in the title, and stays in it. | title `"x\xa0y"`, meta `"x\xa0y"`: the cleaned title is `"x y"`, the meta text itself | normalise the title before cutting the meta and date texts out of it | medium; not executed | KremlinHandler.CleanTitleAsWritten, shown by KremlinHandler.CleanTitleAsWrittenKeepsSpacedMeta | KremlinHandler.CleanTitle, with KremlinHandler.CleanTitleRemovesMeta and KremlinHandler.CleanTitleRemovesDate |

The entry parser `ParseSingleDocumentEntry`, and so the page loop, keep the cleaning as written, so that the documents are those the code returns. `CleanTitleAgreesWithoutNbsp` shows the two cleanings differ only on titles that hold U+00A0.

# Liverpool library stock checker — a Dafny model

The extension adds an availability mark to Goodreads pages. On a list page
it adds one mark per book row. On a book's own page it adds a single status
line.

- The page script (`content.js`) reads each book's author and title. It sends
  them to the background handler, which answers whether the Liverpool
  library catalogue holds the book.
- The page script then writes a link to the catalogue search. The link is
  marked ✅ or ❌, or shows an error text when the lookup failed.
- The background handler (`background.js`) answers two kinds of message:
  - A catalogue lookup builds a structured `author:(…) AND title:("…") AND
    format:(book)` search URL. It classifies the returned HTML by its
    "no results" markers.
  - An e-book lookup builds a keyword search URL for the OverDrive media API.
    It then looks for a returned item whose normalized title matches the
    normalized search title.

The model has five modules:

- `Wrappers` holds `Option` and `Result`.
- `JsString` holds the ECMAScript string operations the scripts use.
  - `trim` strips the WhiteSpace and LineTerminator code points.
  - `indexOf`, `includes`, `startsWith`, `replace` with a string pattern, and
    `split`/`join` on one character are also modelled.
- `Uri` holds `encodeURIComponent` over all Unicode scalar values. It encodes
  UTF-8 and writes upper-case hexadecimal digits.
  - Its partner is a form-urlencoded decoder: `%XY` reads as a byte, `+` as a
    space, and the bytes as UTF-8.
  - `UriQuery` uses that decoder to read back the value of a query
    parameter, as the server receiving the request would.
- `Background` models `background.js`:
  - the two URL builders;
  - the HTML classifier;
  - `normalizeTitle` and the item matching;
  - the media aggregation;
  - message dispatch, with failures mapped to "not available".
- `Content` models `content.js`:
  - `formatAuthorName`;
  - `getCleanedTitle`, as a left fold `CleanedTitle` and as a method with the
    script's loop, proved equal to the fold;
  - the acceptance of a reply;
  - the link and the mark written for a row or a detail page;
  - page routing.

The network is a parameter (`Background.Network`): one function from URL to
fetched HTML and one from URL to a parsed media body, each of which may fail.
So the lemmas can say which URL was fetched and what became of each possible
answer. The messaging channel is a function from message to optional reply.
`Content.ToBackground` connects it to the background handler.

Two behaviours of the code may surprise a reader:

- A media answer without an `items` key gives an undefined `isAvailable`
  (`None`), not `false`. That is what the `&&` on `background.js:45` yields.
  `Content.UndefinedMediaReplyIsRejected` shows that such a reply would be
  rejected by the page script. An `items` value of `null` is not modelled
  (see "Left out").
- Internal whitespace of a normalized title is kept as it is.
  `Background.NormalizeFixpointIff` shows that any trimmed string of
  lower-case letters, digits, `_` and whitespace is its own normalization,
  runs of spaces included.

## Model

| member | source | states |
|---|---|---|
| JsString.Trim | content.js:45 | `trim`: the result starts and ends with no whitespace, is a slice of the input with only whitespace around it, and an already trimmed string is returned unchanged |
| JsString.TrimKeepsCharacters | content.js:35-36 | trimming never introduces a character that was not in the input |
| JsString.TrimAllWhitespace | content.js:49 | a string of whitespace only trims to the empty string |
| JsString.TrimAfterWhitespace | content.js:36 | whitespace in front of a trimmed string is removed and nothing else |
| JsString.Contains | background.js:15-16 | `includes`; no ensures of its own, see `JsString.ContainsIff` |
| JsString.StartsWith | content.js:135 | `startsWith`: the pattern is a prefix; no ensures of its own, see `Content.DetailPrefixRoutesToDetail` and `Content.ForeignBookPageDoesNothing` |
| JsString.ReplaceFirst | content.js:49 | `replace(p, '')` never lengthens the string; see `JsString.ReplaceFirstRemovesFirstOccurrence` for its value |
| JsString.IndexOf | content.js:49 | `indexOf`: the result is an occurrence with no earlier one, and none means the pattern occurs nowhere |
| JsString.ContainsIff | background.js:15-16 | `includes` holds exactly when the pattern occurs at some position |
| JsString.ContainsBasics | background.js:47 | every string includes itself and the empty string; the empty string includes only the empty string |
| JsString.ContainsExtend | content.js:180 | text that includes a pattern still includes it with anything added before or after |
| JsString.ReplaceFirstRemovesFirstOccurrence | content.js:49 | `replace` with a string pattern cuts out exactly the first occurrence, and leaves a string without one unchanged |
| JsString.Count | content.js:33-34 | the number of separators is zero exactly when the separator does not occur |
| JsString.CountAppend | content.js:33-34 | counting distributes over concatenation |
| JsString.Split | content.js:33 | `split`: one more piece than separators, no piece holds the separator, and joining the pieces gives the input back |
| JsString.SplitAfterPiece | content.js:33 | a separator-free piece followed by the separator splits off as the first piece |
| JsString.SplitNoSeparator | content.js:33 | text without the separator splits into itself alone |
| JsString.SplitJoin | content.js:33 | splitting undoes joining separator-free pieces |
| Uri.Utf8 | background.js:7 | one scalar value takes one to four bytes, and one byte exactly for ASCII |
| Uri.PercentEncode | background.js:7 | the escape of `n` bytes is `3n` characters long and uses only `%`, digits and upper-case `A`-`F` |
| Uri.PercentEncodeAppend | background.js:7 | encoding works byte by byte: one byte becomes `%` and its two upper-case digits, high half first, and the encoding of two byte sequences in a row is one encoding after the other |
| Uri.EncodeUriComponent | background.js:7 | `encodeURIComponent` writes only unreserved characters and `%`, and never shortens its input |
| Uri.EncodedHasNoDelimiters | background.js:7 | an encoded component holds no space, `&`, `#`, `+`, `"`, `=`, `?` or `/` |
| Uri.EncodeIsIdentityIff | background.js:33 | encoding changes nothing exactly when every character is unreserved |
| Uri.HexRoundTrip | background.js:7 | the two hexadecimal digits written for a byte read back as that byte |
| Uri.FormBytesOfPercentEncode | background.js:7 | reading back percent-encoded bytes gives those bytes |
| Uri.FormBytesOfEncode | background.js:7 | reading back an encoded component gives the UTF-8 bytes of the original |
| Uri.DecodeFirstOfUtf8 | background.js:7 | UTF-8 decoding reads back the first encoded scalar value and its length |
| Uri.Utf8RoundTrip | background.js:7 | UTF-8 decoding undoes UTF-8 encoding |
| Uri.DecodeEncode | background.js:7 | the form decoder undoes `encodeURIComponent` for every string |
| UriQuery.FormDecodeAppend | background.js:7 | decoding two well-formed pieces and concatenating equals decoding their concatenation |
| UriQuery.FormDecodePlain | background.js:7 | unreserved text reads back as itself |
| UriQuery.FormDecodePlus | background.js:7 | a literal `+` in the template reads as a space |
| UriQuery.FormDecodeEscape | background.js:7 | a literal `%XY` escape in the template reads as its ASCII character |
| UriQuery.IndexOfFirstChar | background.js:7 | the first `?` of a URL whose base has none is just after the base |
| UriQuery.QueryOfUrl | background.js:7 | the query of `base?q` is `q` when the base has no `?` and `q` no `#` |
| UriQuery.ParamValueOfFirst | background.js:33 | the first `name=value` parameter is found by name, whatever `&`-parameters follow |
| UriQuery.QueryParameterOfFirst | background.js:33 | the server reads the decoded value of the first parameter of such a URL |
| Background.AuthorClauseSpelledOut | background.js:7 | the author clause of the structured URL spells the source's encoded prefix |
| Background.TitleClauseSpelledOut | background.js:7 | the title clause spells the source's encoded text between author and title |
| Background.FormatClauseSpelledOut | background.js:7 | the closing clause spells the source's encoded format restriction |
| Background.StructuredQueryTextSpelledOut | background.js:7 | the decoded structured query is the boolean query over author, quoted title and the book format |
| Background.CatalogueSearchHasNoQuestionMark | background.js:7 | the catalogue search endpoint has no query part of its own |
| Background.MediaSearchHasNoQuestionMark | background.js:33 | the media search endpoint has no query part of its own |
| Background.MediaFiltersHaveNoHash | background.js:33 | the fixed media filters add no fragment to the URL |
| Background.MediaFiltersStartWithAmpersand | background.js:33 | the fixed media filters start a new parameter |
| Background.StructuredQueryValueDecodes | background.js:7 | the encoded structured query decodes to the boolean query text for the given author and title |
| Background.StructuredQueryValueHasNoDelimiters | background.js:7 | the structured query value never holds `&` or `#`, whatever author and title |
| Background.StructuredQueryValue | background.js:7 | the encoded boolean query; no ensures of its own, see `Background.StructuredQueryValueDecodes` and `Background.StructuredQueryValueHasNoDelimiters` |
| Background.StructuredQueryUrl | background.js:7 | the catalogue search URL; no ensures of its own, see `Background.StructuredQueryDecodes` |
| Background.StructuredQueryDecodes | background.js:7 | the catalogue reads from the structured URL exactly the boolean query over the given author and title |
| Background.TitleClauseInAuthorIsAmbiguous | background.js:7 | an author holding the text between the author and the title clause gives, with a different author and title, the same boolean query |
| Background.AmbiguousQueriesReachTheCatalogue | background.js:7 | two such different author and title pairs send the catalogue the same `query` parameter |
| Background.KeywordQueryUrl | background.js:32-33 | the media search URL; no ensures of its own, see `Background.KeywordQueryDecodes` |
| Background.KeywordQueryDecodes | background.js:32-33 | the media API reads from the keyword URL exactly `title + " " + author` as its query, with the fixed filters after it |
| Background.HtmlIsAvailable | background.js:15-19 | the page classification; no ensures of its own, see `Background.HtmlUnavailableIff` |
| Background.StructuredLookup | background.js:11-25 | the catalogue answer, `false` on a failed fetch; no ensures of its own, see `Background.FailClosed` and `Background.LibraryReplyIsDefined` |
| Background.HtmlUnavailableIff | background.js:15-19 | a page is unavailable exactly when it holds "found nothing", or holds both the no-results marker and the apology phrase |
| Background.EmptyHtmlIsAvailable | background.js:15-19 | an empty page counts as available |
| Background.OneMarkerIsNotEnough | background.js:15-19 | one of the two conjoined markers alone, without "found nothing", counts as available |
| Background.UnavailableIsStable | background.js:15-19 | text added around an unavailable page leaves it unavailable |
| Background.Lower | background.js:41 | lower-casing keeps the length and maps each character by itself |
| Background.LowerAppend | background.js:41 | lower-casing distributes over concatenation |
| Background.StripPunctuation | background.js:41 | removing punctuation never lengthens the text |
| Background.StripAppend | background.js:41 | removing punctuation distributes over concatenation |
| Background.StripKeepsLowercase | background.js:41 | after lower-casing, removing punctuation leaves only lower-case letters, digits, `_` and whitespace |
| Background.StripNormalIsIdentity | background.js:41 | text of such characters alone has nothing removed |
| Background.TrimKeepsNormalChars | background.js:41 | trimming keeps a text made only of such characters |
| Background.NormalizeTitle | background.js:41 | `normalizeTitle` yields a trimmed text of lower-case letters, digits, `_` and whitespace, no longer than its input |
| Background.NormalizeFixpointIff | background.js:41 | a text is its own normalization exactly when it is already trimmed and made of those characters, so inner whitespace is not collapsed |
| Background.NormalizeIdempotent | background.js:41 | normalizing twice is normalizing once |
| Background.PunctuationIsIgnored | background.js:41 | removing one punctuation character from the input does not change the normalized title |
| Background.CaseIsIgnored | background.js:41 | texts that agree up to letter case normalize alike |
| Background.PunctuationOnlyIsEmpty | background.js:41 | a title of punctuation only normalizes to the empty string |
| Background.TitlesMatch | background.js:47 | the three-way title comparison; no ensures of its own, see `Background.TitlesMatchProperties` |
| Background.ItemMatches | background.js:46-47 | an item's title, `''` when absent, normalized and compared; no ensures of its own, see `Background.UntitledItemMatchesAll` |
| Background.TitlesMatchProperties | background.js:47 | the match relation is symmetric, equality adds nothing to containment either way, and the empty title matches everything |
| Background.AnyItemMatches | background.js:45-48 | `items.some(...)`; no ensures of its own, see `Background.AnyItemMatchesIff` |
| Background.MediaLookup | background.js:37-55 | the media answer; no ensures of its own, see `Background.MediaLookupIff` and `Background.FailClosed` |
| Background.AnyItemMatchesIff | background.js:45-48 | `some` holds exactly when some item's normalized title matches |
| Background.MediaLookupIff | background.js:45-50 | the media answer is `true` exactly when an item list came back with a matching item; an empty list gives `false` and an absent list an undefined answer |
| Background.UntitledItemMatchesAll | background.js:46-47 | an item without a title or with a punctuation-only title matches any search |
| Background.PunctuationSearchMatchesAll | background.js:42-48 | a punctuation-only search title matches any non-empty item list |
| Background.RequestedUrl | background.js:4-7 | the URL each message type fetches; no ensures of its own, see `Background.DispatchByType` |
| Background.HandleMessage | background.js:1-59 | the message handler; no ensures of its own, see `Background.DispatchByType` and `Background.FailClosed` |
| Background.DispatchByType | background.js:4-58 | only the two message types get a reply; the catalogue lookup fetches the structured URL and classifies its page, the e-book lookup fetches the keyword URL and aggregates its items |
| Background.FailClosed | background.js:22-25 | a failed fetch on either path answers "not available" |
| Background.LibraryReplyIsDefined | background.js:13-24 | a catalogue lookup always gets a reply with a defined answer |
| Content.FormatAuthorName | content.js:32-40 | with no comma or more than one the name is returned unchanged, and with exactly one the result holds no comma |
| Content.FormatAuthorOneComma | content.js:33-37 | with exactly one comma the result is the trimmed text after it, one space, then the trimmed text before it |
| Content.FormatAuthorSwapsNames | content.js:33-37 | "Last, First" becomes "First Last" |
| Content.FormatAuthorEmptyFirstName | content.js:35-37 | an empty first name is not special: "Last," becomes " Last", with a leading space |
| Content.FormatAuthorIdempotent | content.js:32-40 | formatting a formatted name changes nothing more |
| Content.CleanStep | content.js:49 | one pass yields a trimmed title no longer than before |
| Content.CleanSteps | content.js:48-50 | the passes keep a trimmed title trimmed and never lengthen it |
| Content.CleanedTitle | content.js:43-52 | the cleaned title is trimmed and no longer than the trimmed cell text |
| Content.GetCleanedTitle | content.js:43-52 | the loop over the annotation spans computes exactly the left fold `CleanedTitle` |
| Content.CleanedTitleWithoutSpans | content.js:45-51 | without annotation spans the cleaned title is the trimmed cell text |
| Content.CleanStepRemovesFirstOccurrence | content.js:49 | a pass cuts out exactly the first occurrence of the trimmed span text, and leaves a title without one unchanged |
| Content.CleanStepsWithoutOccurrences | content.js:48-50 | spans whose text does not occur in the title remove nothing |
| Content.BlankSpansRemoveNothing | content.js:48-50 | blank spans remove nothing |
| Content.CheckLibraryAvailability | content.js:2-21 | the lookup sent as a catalogue message and judged by `Accept`; no ensures of its own, see `Content.LibraryLookupResolves` |
| Content.Accept | content.js:11-17 | a reply is accepted exactly when it exists and its answer is defined, and then it resolves to that answer; otherwise the promise rejects |
| Content.LibraryLookupResolves | content.js:2-21 | against the background handler the lookup never rejects, and resolves to the classification of the page fetched for the structured URL |
| Content.UndefinedMediaReplyIsRejected | content.js:13-17 | a media reply without an item list would be rejected |
| Content.CatalogueLink | content.js:77 | the link URL; no ensures of its own, see `Content.CatalogueLinkIsFetchedUrl` |
| Content.CatalogueLinkIsFetchedUrl | content.js:77 | the link written on the page is the URL the background handler fetched, and the catalogue reads from it exactly the looked-up author and title |
| Content.ListCell | content.js:81-86 | the list cell's mark; no ensures of its own, see `Content.MarkIff` |
| Content.DetailStatus | content.js:169-174 | the detail page's status; no ensures of its own, see `Content.MarkIff` |
| Content.MarkIff | content.js:81-86 | the mark is ✅ (or the "exists" sentence) exactly when the lookup resolved to `true`, and a rejected lookup shows ❌ (or "❌ Error") without a link |
| Content.HandleNewRow | content.js:55-89 | the row handler; no ensures of its own, see `Content.RowLinkIsFetchedSearch` and `Content.IncompleteRowIsSkipped` |
| Content.RowLinkIsFetchedSearch | content.js:55-83 | a row with both cells gets a link to the search fetched for its cleaned title and formatted author, marked by the page's classification |
| Content.IncompleteRowIsSkipped | content.js:59 | a row is left alone exactly when one of its two cells is missing |
| Content.HandleBookDetailPage | content.js:134-176 | the detail handler; no ensures of its own, see `Content.DetailPageIff` and `Content.ForeignBookPageDoesNothing` |
| Content.DetailPageIff | content.js:134-171 | the detail page gets a status exactly when the address has the detail prefix and both elements exist, and then it links the search for the trimmed author (not reordered) and title |
| Content.Route | content.js:179-185 | the page dispatch; no ensures of its own, see `Content.RoutePrecedence` and `Content.DetailPrefixRoutesToDetail` |
| Content.RoutePrecedence | content.js:179-185 | an address containing the book path goes to the detail handler even if it also holds the list path; the list handler runs only otherwise |
| Content.DetailPrefixRoutesToDetail | content.js:135 | an address with the detail prefix is routed to the detail handler |
| Content.ForeignBookPageDoesNothing | content.js:135 | the detail handler does nothing on an address without the detail prefix |

## Left out

- Messaging transport: the listener registration, `sendResponse`, the
  keep-alive `return true`, and the promise plumbing are not modelled. A
  reply is a value, and a missing reply is `None`.
- Fetching: `fetch`, reading the body and parsing JSON are the `Network`
  parameter. Whatever fails there is an `Err`.
- The DOM:
  - element look-up is reduced to the texts the scripts read (cell text,
    span texts, heading and author-link text);
  - element creation, styles and the spinner are left out, and so is
    `createLoadingSpinner`;
  - what is written is reduced to a `Cell` value;
  - the look-up `authorElement.closest('.ContributorLinksList')` on
    `content.js:158` is assumed to succeed. Without such an ancestor it gives
    `null`, `appendChild` throws before the availability lookup, and the
    detail page shows nothing, while `Content.HandleBookDetailPage` writes a
    status.
- `observeDynamicRows` and `handleBookListPage` (the mutation observer, the
  "Exists" header cell, the walk over existing rows) are left out. They
  only apply `handleNewRow` to each row. Rows run concurrently in the page.
  The model handles one row at a time.
- `console` logging is left out.
- Background.Lower: `toLowerCase` is modelled on ASCII letters only. Other
  characters are left unchanged, while JavaScript also lower-cases non-ASCII
  letters.
- Lone surrogate code units (on which `encodeURIComponent` throws) cannot
  occur in the model's strings.
- A media item whose `title` is not a string (a number, an object) is out of
  scope. An item's title is either absent (`None`) or a string.
- JSON serialization of the reply is not modelled. An undefined
  `isAvailable` is `None`, which the page script rejects as it would a
  missing key.
- The decoded author and title are placed into the boolean query as they
  are, inside `author:(…)` and `title:("…")`. An author or title that holds
  clause text such as `) AND title:("` moves the clause boundary.
  `Background.TitleClauseInAuthorIsAmbiguous` and
  `Background.AmbiguousQueriesReachTheCatalogue` show two different pairs
  that send the catalogue the same query. How the catalogue parses such a
  query is outside the model.
- Two JSON shapes of the media answer cannot be written as a `MediaBody`.
  With `items: null`, `data.items && …` gives `isAvailable: null`, which the
  page script accepts (it is not `undefined`) and shows as not available.
  With a `null` entry in `items`, reading `item.title` throws when `some`
  reaches that entry before any matching item; the handler catches the
  error and answers `false`. A match earlier in the list stops `some`
  before the `null` entry is read, and the answer is `true`.

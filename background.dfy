/** background.js: the extension's message handler. It answers two kinds of
    lookup message, each by building one catalogue URL, fetching it and
    classifying the response, and it answers `false` whenever the fetch or
    the reading of the body fails. */
module Background {
  import opened Wrappers
  import opened JsString
  import opened Uri
  import opened UriQuery

  /** The message types the handler answers. */
  const LibraryLookup: string := "checkLibraryAvailability"
  const LibbyLookup: string := "checkLibbyAvailability"

  /** A lookup request as it arrives over the messaging channel. */
  datatype Message = Message(kind: string, author: string, title: string)

  /** The reply sent back: `isAvailable` may be undefined (`None`). */
  datatype Reply = Reply(isAvailable: Option<bool>)

  /** The parsed JSON body of the media search: its `items` array, if any,
      with each item's `title`, if any. */
  datatype MediaBody = MediaBody(items: Option<seq<Option<string>>>)

  /** What the network does with a URL: the HTML body of a structured-index
      search, or the parsed JSON body of a media search; `Err` when the fetch,
      the body read or the JSON parse fails. */
  datatype Network = Network(html: string -> Result<string>, json: string -> Result<MediaBody>)

  // ---------------------------------------------------------------------
  // The two catalogue URLs.

  /** The structured-index search endpoint of the Liverpool catalogue. */
  const CatalogueSearch: string := "https://" + "prism.librarymanagementcloud.co.uk" + "/liverpool/items"

  /** The media search endpoint of the Liverpool digital library. */
  const MediaSearch: string := "https://" + "thunder.api.overdrive.com" + "/v2/libraries/liverpool/media"

  /** One `&name=value` parameter of the media search. */
  function Param(name: string, value: string): string {
    "&" + name + "=" + value
  }

  /** One `includedFacets` parameter of the media search. */
  function Facet(name: string): string {
    Param("includedFacets", name)
  }

  /** The facets the media search asks for. */
  const FacetFilters: string :=
    Facet("availability") + Facet("mediaTypes") + Facet("formats") + Facet("maturityLevels")
    + Facet("subjects") + Facet("languages") + Facet("boolean") + Facet("addedDates")
    + Facet("freshStart")

  /** The e-book formats the media search asks for, comma-separated. */
  const EbookFormats: string := "ebook-overdrive" + "," + "ebook-media-do" + "," + "ebook-overdrive-provisional"

  /** The parameters the media search sends after its `query`. */
  const MediaFilters: string :=
    Param("format", EbookFormats) + Param("perPage", "24") + Param("page", "1")
    + Param("truncateDescription", "false") + FacetFilters + Param("x-client-id", "dewey")

  // The structured query is written clause by clause below; each encoded
  // piece sits beside the text it stands for, and together they spell the
  // URL `...items?query=+author%3A%28A%29+AND+title%3A%28%22T%22%29+AND+format%3A%28book%29`
  // for the encoded author A and title T.

  /** `FIELD%3A%28`, the encoded form of `FIELD:(`. */
  function FieldOpen(field: string): string {
    field + "%3A" + "%28"
  }

  function FieldText(field: string): string {
    field + ":" + "("
  }

  /** `%29+AND+`, the encoded form of `) AND `. */
  const CloseAnd: string := "%29" + "+" + "AND" + "+"
  const CloseAndText: string := ")" + " " + "AND" + " "

  /** `%22` and `%29`, the encoded forms of `"` and `)`. */
  const EncodedQuote: string := "%22"
  const EncodedClose: string := "%29"

  /** `+author%3A%28`, standing for ` author:(`. */
  const AuthorClauseOpen: string := "+" + FieldOpen("author")
  const AuthorClauseText: string := " " + FieldText("author")

  /** `%29+AND+title%3A%28%22`, standing for `) AND title:("`. */
  const TitleClauseOpen: string := CloseAnd + FieldOpen("title") + EncodedQuote
  const TitleClauseText: string := CloseAndText + FieldText("title") + "\""

  /** `%22%29+AND+format%3A%28`, standing for `") AND format:(`. */
  const FormatClauseOpen: string := EncodedQuote + CloseAnd + FieldOpen("format")
  const FormatClauseOpenText: string := "\"" + CloseAndText + FieldText("format")

  /** `%22%29+AND+format%3A%28book%29`, standing for `") AND format:(book)`. */
  const FormatClause: string := FormatClauseOpen + "book" + EncodedClose
  const FormatClauseText: string := FormatClauseOpenText + "book" + ")"

  /** The value of the structured search's `query` parameter. */
  function StructuredQueryValue(author: string, title: string): string {
    AuthorClauseOpen + EncodeUriComponent(author) + TitleClauseOpen
    + EncodeUriComponent(title) + FormatClause
  }

  /** The structured-index search for one author and title. */
  function StructuredQueryUrl(author: string, title: string): string {
    CatalogueSearch + "?query=" + StructuredQueryValue(author, title)
  }

  /** The boolean query ` author:(A) AND title:("T") AND format:(book)` the
      structured-index search is meant to carry. */
  function StructuredQueryText(author: string, title: string): string {
    AuthorClauseText + author + TitleClauseText + title + FormatClauseText
  }

  /** The media search for one title and author: a single keyword query. */
  function KeywordQueryUrl(title: string, author: string): string {
    MediaSearch + "?query=" + EncodeUriComponent(title + " " + author) + MediaFilters
  }

  /** The encoded clauses spell the fixed parts of the structured URL: the
      author clause, ... */
  lemma AuthorClauseSpelledOut()
    ensures AuthorClauseOpen == "+author%3A%28"
  {
  }

  /** ... the title clause ... */
  lemma TitleClauseSpelledOut()
    ensures TitleClauseOpen == "%29+AND+title%3A%28%22"
  {
  }

  /** ... and the closing format clause. */
  lemma FormatClauseSpelledOut()
    ensures FormatClause == "%22%29+AND+format%3A%28book%29"
  {
  }

  /** The decoded clauses spell the boolean query. */
  lemma StructuredQueryTextSpelledOut(author: string, title: string)
    ensures StructuredQueryText(author, title)
            == " author:(" + author + ") AND title:(\"" + title + "\") AND format:(book)"
  {
    assert AuthorClauseText == " author:(";
    assert TitleClauseText == ") AND title:(\"";
    assert FormatClauseText == "\") AND format:(book)";
  }

  lemma CatalogueSearchHasNoQuestionMark()
    ensures '?' !in CatalogueSearch
  {
  }

  lemma MediaSearchHasNoQuestionMark()
    ensures '?' !in MediaSearch
  {
  }

  lemma ParamHasNoHash(name: string, value: string)
    requires '#' !in name && '#' !in value
    ensures '#' !in Param(name, value)
  {
  }

  lemma FacetHasNoHash(name: string)
    requires '#' !in name
    ensures '#' !in Facet(name)
  {
    ParamHasNoHash("includedFacets", name);
  }

  lemma FacetFiltersHaveNoHash()
    ensures '#' !in FacetFilters
  {
    FacetHasNoHash("availability");
    FacetHasNoHash("mediaTypes");
    FacetHasNoHash("formats");
    FacetHasNoHash("maturityLevels");
    FacetHasNoHash("subjects");
    FacetHasNoHash("languages");
    FacetHasNoHash("boolean");
    FacetHasNoHash("addedDates");
    FacetHasNoHash("freshStart");
  }

  lemma MediaFiltersHaveNoHash()
    ensures '#' !in MediaFilters
  {
    FacetFiltersHaveNoHash();
    ParamHasNoHash("format", EbookFormats);
    ParamHasNoHash("perPage", "24");
    ParamHasNoHash("page", "1");
    ParamHasNoHash("truncateDescription", "false");
    ParamHasNoHash("x-client-id", "dewey");
  }

  lemma MediaFiltersStartWithAmpersand()
    ensures MediaFilters != [] && MediaFilters[0] == '&'
  {
    assert Param("format", EbookFormats)[0] == '&';
  }

  lemma QueryNameIsPlain()
    ensures '&' !in "query" && '#' !in "query"
  {
  }

  lemma DecodeFieldOpen(field: string)
    requires forall k :: 0 <= k < |field| ==> IsUnreserved(field[k])
    ensures FormDecode(FieldOpen(field)) == Some(FieldText(field))
  {
    FormDecodePlain(field);
    FormDecodeEscape('3', 'A', ':');
    FormDecodeEscape('2', '8', '(');
    assert "%3A" == ['%', '3', 'A'] && "%28" == ['%', '2', '8'];
    FormDecodeAppend(field, "%3A");
    FormDecodeAppend(field + "%3A", "%28");
  }

  lemma DecodeCloseAnd()
    ensures FormDecode(CloseAnd) == Some(CloseAndText)
  {
    var and := "AND";
    FormDecodePlus();
    FormDecodePlain(and);
    FormDecodeEscape('2', '9', ')');
    assert "%29" == ['%', '2', '9'];
    FormDecodeAppend("%29", "+");
    FormDecodeAppend("%29" + "+", and);
    FormDecodeAppend("%29" + "+" + and, "+");
  }

  lemma DecodeQuoteAndClose()
    ensures FormDecode(EncodedQuote) == Some("\"") && FormDecode(EncodedClose) == Some(")")
  {
    FormDecodeEscape('2', '2', '"');
    FormDecodeEscape('2', '9', ')');
    assert EncodedQuote == ['%', '2', '2'] && EncodedClose == ['%', '2', '9'];
  }

  lemma DecodeAuthorClauseOpen()
    ensures FormDecode(AuthorClauseOpen) == Some(AuthorClauseText)
  {
    var w := "author";
    assert forall k :: 0 <= k < |w| ==> IsUnreserved(w[k]);
    FormDecodePlus();
    DecodeFieldOpen(w);
    FormDecodeAppend("+", FieldOpen(w));
  }

  lemma DecodeTitleClauseOpen()
    ensures FormDecode(TitleClauseOpen) == Some(TitleClauseText)
  {
    var w := "title";
    assert forall k :: 0 <= k < |w| ==> IsUnreserved(w[k]);
    DecodeCloseAnd();
    DecodeFieldOpen(w);
    DecodeQuoteAndClose();
    FormDecodeAppend(CloseAnd, FieldOpen(w));
    FormDecodeAppend(CloseAnd + FieldOpen(w), EncodedQuote);
  }

  lemma DecodeFormatClauseOpen()
    ensures FormDecode(FormatClauseOpen) == Some(FormatClauseOpenText)
  {
    var w := "format";
    assert forall k :: 0 <= k < |w| ==> IsUnreserved(w[k]);
    DecodeCloseAnd();
    DecodeFieldOpen(w);
    DecodeQuoteAndClose();
    FormDecodeAppend(EncodedQuote, CloseAnd);
    FormDecodeAppend(EncodedQuote + CloseAnd, FieldOpen(w));
  }

  lemma DecodeFormatClause()
    ensures FormDecode(FormatClause) == Some(FormatClauseText)
  {
    var book := "book";
    assert forall k :: 0 <= k < |book| ==> IsUnreserved(book[k]);
    DecodeFormatClauseOpen();
    DecodeQuoteAndClose();
    FormDecodePlain(book);
    FormDecodeAppend(FormatClauseOpen, book);
    FormDecodeAppend(FormatClauseOpen + book, EncodedClose);
  }

  /** Decoding a text made of five decodable pieces. */
  lemma DecodeFive(p1: string, x: string, p2: string, y: string, p3: string,
                   d1: string, dx: string, d2: string, dy: string, d3: string)
    requires FormDecode(p1) == Some(d1) && FormDecode(x) == Some(dx) && FormDecode(p2) == Some(d2)
    requires FormDecode(y) == Some(dy) && FormDecode(p3) == Some(d3)
    ensures FormDecode(p1 + x + p2 + y + p3) == Some(d1 + dx + d2 + dy + d3)
  {
    FormDecodeAppend(p1, x);
    FormDecodeAppend(p1 + x, p2);
    FormDecodeAppend(p1 + x + p2, y);
    FormDecodeAppend(p1 + x + p2 + y, p3);
  }

  /** The value of the `query` parameter decodes to the boolean query, with
      the author and title exactly as given. */
  lemma StructuredQueryValueDecodes(author: string, title: string)
    ensures FormDecode(StructuredQueryValue(author, title)) == Some(StructuredQueryText(author, title))
  {
    DecodeAuthorClauseOpen();
    DecodeTitleClauseOpen();
    DecodeFormatClause();
    DecodeEncode(author);
    DecodeEncode(title);
    DecodeFive(AuthorClauseOpen, EncodeUriComponent(author), TitleClauseOpen,
               EncodeUriComponent(title), FormatClause,
               AuthorClauseText, author, TitleClauseText, title, FormatClauseText);
  }

  lemma FieldOpenHasNoDelimiters(field: string)
    requires '&' !in field && '#' !in field
    ensures '&' !in FieldOpen(field) && '#' !in FieldOpen(field)
  {
  }

  lemma ClausesHaveNoDelimiters()
    ensures '&' !in AuthorClauseOpen && '#' !in AuthorClauseOpen
    ensures '&' !in TitleClauseOpen && '#' !in TitleClauseOpen
    ensures '&' !in FormatClause && '#' !in FormatClause
  {
    FieldOpenHasNoDelimiters("author");
    FieldOpenHasNoDelimiters("title");
    FieldOpenHasNoDelimiters("format");
  }

  lemma StructuredQueryValueHasNoDelimiters(author: string, title: string)
    ensures '&' !in StructuredQueryValue(author, title) && '#' !in StructuredQueryValue(author, title)
  {
    ClausesHaveNoDelimiters();
    EncodedHasNoDelimiters(author);
    EncodedHasNoDelimiters(title);
  }

  /** A URL `base?query=v...` in the shape the query-parameter lemmas read. */
  lemma QueryUrlShape(base: string, v: string, more: string)
    ensures base + "?query=" + v + more == base + "?" + "query" + "=" + v + more
  {
    assert "?query=" == "?" + "query" + "=";
  }

  /** The catalogue reads the structured query value as the `query` parameter. */
  lemma StructuredQueryIsParameter(author: string, title: string)
    ensures QueryParameter(StructuredQueryUrl(author, title), "query")
            == FormDecode(StructuredQueryValue(author, title))
  {
    var v := StructuredQueryValue(author, title);
    QueryUrlShape(CatalogueSearch, v, []);
    assert StructuredQueryUrl(author, title) == CatalogueSearch + "?query=" + v + [];
    CatalogueSearchHasNoQuestionMark();
    StructuredQueryValueHasNoDelimiters(author, title);
    QueryNameIsPlain();
    QueryParameterOfFirst(CatalogueSearch, "query", v, []);
  }

  /** The catalogue receives, as its `query` parameter, exactly the boolean
      query ` author:(AUTHOR) AND title:("TITLE") AND format:(book)` with the
      author and title as given, whatever characters they hold. */
  lemma StructuredQueryDecodes(author: string, title: string)
    ensures QueryParameter(StructuredQueryUrl(author, title), "query")
            == Some(StructuredQueryText(author, title))
  {
    StructuredQueryIsParameter(author, title);
    StructuredQueryValueDecodes(author, title);
  }

  /** The author and title are placed in the query as they are, so the text of
      the title clause inside an author moves the boundary between the two:
      two different author and title pairs spell the same query ... */
  lemma TitleClauseInAuthorIsAmbiguous(a: string, b: string, c: string)
    ensures a + TitleClauseText + b != a
    ensures StructuredQueryText(a + TitleClauseText + b, c) == StructuredQueryText(a, b + TitleClauseText + c)
  {
    assert |a + TitleClauseText + b| > |a|;
  }

  /** ... and the catalogue reads that same query from both URLs. */
  lemma AmbiguousQueriesReachTheCatalogue(a: string, b: string, c: string)
    ensures QueryParameter(StructuredQueryUrl(a + TitleClauseText + b, c), "query")
            == QueryParameter(StructuredQueryUrl(a, b + TitleClauseText + c), "query")
  {
    TitleClauseInAuthorIsAmbiguous(a, b, c);
    StructuredQueryDecodes(a + TitleClauseText + b, c);
    StructuredQueryDecodes(a, b + TitleClauseText + c);
  }


  /** The media server reads the encoded keywords as the `query` parameter. */
  lemma KeywordQueryIsParameter(title: string, author: string)
    ensures QueryParameter(KeywordQueryUrl(title, author), "query")
            == FormDecode(EncodeUriComponent(title + " " + author))
  {
    var v := EncodeUriComponent(title + " " + author);
    QueryUrlShape(MediaSearch, v, MediaFilters);
    MediaSearchHasNoQuestionMark();
    MediaFiltersHaveNoHash();
    MediaFiltersStartWithAmpersand();
    QueryNameIsPlain();
    EncodedHasNoDelimiters(title + " " + author);
    QueryParameterOfFirst(MediaSearch, "query", v, MediaFilters);
  }

  /** The media search receives, as its `query` parameter, exactly the title,
      one space and the author. */
  lemma KeywordQueryDecodes(title: string, author: string)
    ensures QueryParameter(KeywordQueryUrl(title, author), "query") == Some(title + " " + author)
  {
    KeywordQueryIsParameter(title, author);
    DecodeEncode(title + " " + author);
  }

  // ---------------------------------------------------------------------
  // Classifying the structured-index HTML.

  const NoResultsMarker: string := "id=\"dymnoresults\""
  const NoResultsPhrase: string := "Sorry, didn't find anything for"
  const FoundNothingPhrase: string := "found nothing"

  /** Available unless the page holds both no-results markers, or the phrase
      "found nothing". */
  predicate HtmlIsAvailable(text: string) {
    var noResults := Contains(text, NoResultsMarker) && Contains(text, NoResultsPhrase);
    var foundNothing := Contains(text, FoundNothingPhrase);
    !(noResults || foundNothing)
  }

  /** The structured-index answer: a failed fetch or body read is `false`. */
  function StructuredLookup(fetched: Result<string>): bool {
    match fetched
    case Err(_) => false
    case Ok(text) => HtmlIsAvailable(text)
  }

  /** The page reads as unavailable exactly when "found nothing" occurs in
      it, or both the `id="dymnoresults"` marker and the "Sorry, didn't find
      anything for" phrase occur in it. */
  lemma HtmlUnavailableIff(text: string)
    ensures !HtmlIsAvailable(text) <==>
      (exists i :: OccursAt(text, FoundNothingPhrase, i))
      || ((exists i :: OccursAt(text, NoResultsMarker, i)) && (exists j :: OccursAt(text, NoResultsPhrase, j)))
  {
    ContainsIff(text, FoundNothingPhrase);
    ContainsIff(text, NoResultsMarker);
    ContainsIff(text, NoResultsPhrase);
  }

  /** An empty page reads as available. */
  lemma EmptyHtmlIsAvailable()
    ensures HtmlIsAvailable([])
  {
    ContainsBasics([], NoResultsMarker);
    ContainsBasics([], NoResultsPhrase);
    ContainsBasics([], FoundNothingPhrase);
  }

  /** Either conjunctive marker on its own, without "found nothing", leaves
      the page available. */
  lemma OneMarkerIsNotEnough(text: string)
    requires !Contains(text, FoundNothingPhrase)
    requires !Contains(text, NoResultsMarker) || !Contains(text, NoResultsPhrase)
    ensures HtmlIsAvailable(text)
  {
  }

  /** More page content around an unavailable page never makes it available. */
  lemma UnavailableIsStable(u: string, text: string, v: string)
    requires !HtmlIsAvailable(text)
    ensures !HtmlIsAvailable(u + text + v)
  {
    if Contains(text, FoundNothingPhrase) {
      ContainsExtend(u, text, v, FoundNothingPhrase);
    } else {
      ContainsExtend(u, text, v, NoResultsMarker);
      ContainsExtend(u, text, v, NoResultsPhrase);
    }
  }

  // ---------------------------------------------------------------------
  // Normalizing and matching media titles.

  /** `toLowerCase` on ASCII letters. */
  function LowerChar(c: char): char {
    if 'A' <= c <= 'Z' then (c as int - 'A' as int + 'a' as int) as char else c
  }

  function Lower(s: string): (r: string)
    ensures |r| == |s|
    ensures forall k :: 0 <= k < |s| ==> r[k] == LowerChar(s[k])
  {
    if s == [] then [] else [LowerChar(s[0])] + Lower(s[1..])
  }

  /** The regular-expression class `\w` (no Unicode flag). */
  predicate IsWordChar(c: char) {
    ('A' <= c <= 'Z') || ('a' <= c <= 'z') || ('0' <= c <= '9') || c == '_'
  }

  /** `replace(/[^\w\s]/g, '')`: keep word characters and whitespace. */
  function StripPunctuation(s: string): (r: string)
    ensures |r| <= |s|
  {
    if s == [] then []
    else if IsWordChar(s[0]) || IsWhitespace(s[0]) then [s[0]] + StripPunctuation(s[1..])
    else StripPunctuation(s[1..])
  }

  /** The characters a normalized title is made of. */
  predicate IsNormalChar(c: char) {
    ('a' <= c <= 'z') || ('0' <= c <= '9') || c == '_' || IsWhitespace(c)
  }

  predicate IsNormalTitle(s: string) {
    IsTrimmed(s) && forall k :: 0 <= k < |s| ==> IsNormalChar(s[k])
  }

  lemma {:induction false} StripKeepsLowercase(s: string)
    requires forall k :: 0 <= k < |s| ==> !('A' <= s[k] <= 'Z')
    ensures forall k :: 0 <= k < |StripPunctuation(s)| ==> IsNormalChar(StripPunctuation(s)[k])
  {
    if s != [] {
      StripKeepsLowercase(s[1..]);
    }
  }

  lemma TrimKeepsNormalChars(s: string)
    requires forall k :: 0 <= k < |s| ==> IsNormalChar(s[k])
    ensures forall k :: 0 <= k < |Trim(s)| ==> IsNormalChar(Trim(s)[k])
  {
    var r := Trim(s);
    var i := |s| - |TrimStart(s)|;
    TrimBothEnds(s);
    forall k | 0 <= k < |r| ensures IsNormalChar(r[k]) {
      assert r[k] == s[i + k];
    }
  }

  /** `t.toLowerCase().replace(/[^\w\s]/g, '').trim()`: a trimmed string of
      lower-case letters, digits, `_` and whitespace. */
  function NormalizeTitle(t: string): (r: string)
    ensures IsNormalTitle(r)
    ensures |r| <= |t|
  {
    var lowered := Lower(t);
    StripKeepsLowercase(lowered);
    var stripped := StripPunctuation(lowered);
    TrimKeepsNormalChars(stripped);
    Trim(stripped)
  }

  lemma {:induction false} StripNormalIsIdentity(s: string)
    requires forall k :: 0 <= k < |s| ==> IsNormalChar(s[k])
    ensures StripPunctuation(s) == s
  {
    if s != [] {
      StripNormalIsIdentity(s[1..]);
      assert [s[0]] + s[1..] == s;
    }
  }

  /** A string is left unchanged by normalization exactly when it is already
      a normalized title; in particular runs of inner whitespace are kept. */
  lemma NormalizeFixpointIff(s: string)
    ensures NormalizeTitle(s) == s <==> IsNormalTitle(s)
  {
    if IsNormalTitle(s) {
      assert Lower(s) == s;
      StripNormalIsIdentity(s);
    }
  }

  /** Normalizing twice is normalizing once. */
  lemma NormalizeIdempotent(t: string)
    ensures NormalizeTitle(NormalizeTitle(t)) == NormalizeTitle(t)
  {
    NormalizeFixpointIff(NormalizeTitle(t));
  }

  lemma {:induction false} StripAppend(x: string, y: string)
    ensures StripPunctuation(x + y) == StripPunctuation(x) + StripPunctuation(y)
  {
    if x == [] {
      assert x + y == y;
    } else {
      assert (x + y)[1..] == x[1..] + y;
      StripAppend(x[1..], y);
    }
  }

  lemma {:induction false} LowerAppend(x: string, y: string)
    ensures Lower(x + y) == Lower(x) + Lower(y)
  {
    if x == [] {
      assert x + y == y;
    } else {
      assert (x + y)[1..] == x[1..] + y;
      LowerAppend(x[1..], y);
    }
  }

  /** A character outside `\w` and `\s`: the punctuation normalization
      removes. */
  predicate IsPunctuation(c: char) {
    !IsWordChar(c) && !IsWhitespace(c)
  }

  predicate IsPunctuationOnly(t: string) {
    forall k :: 0 <= k < |t| ==> IsPunctuation(t[k])
  }

  /** A punctuation character anywhere in a title does not change its
      normalized form. */
  lemma PunctuationIsIgnored(x: string, p: char, y: string)
    requires IsPunctuation(p)
    ensures NormalizeTitle(x + [p] + y) == NormalizeTitle(x + y)
  {
    LowerAppend(x + [p], y);
    LowerAppend(x, [p]);
    LowerAppend(x, y);
    assert LowerChar(p) == p;
    assert Lower([p]) == [p];
    var lx, ly := Lower(x), Lower(y);
    StripAppend(lx + [p], ly);
    StripAppend(lx, [p]);
    StripAppend(lx, ly);
    assert StripPunctuation([p]) == [];
    assert StripPunctuation(Lower(x + [p] + y)) == StripPunctuation(Lower(x + y));
  }

  /** Titles that differ only in the case of ASCII letters normalize alike. */
  lemma CaseIsIgnored(s: string, t: string)
    requires |s| == |t| && forall k :: 0 <= k < |s| ==> LowerChar(s[k]) == LowerChar(t[k])
    ensures NormalizeTitle(s) == NormalizeTitle(t)
  {
    assert Lower(s) == Lower(t);
  }

  /** A title of punctuation only normalizes to the empty string. */
  lemma {:induction false} PunctuationOnlyIsEmpty(t: string)
    requires IsPunctuationOnly(t)
    ensures NormalizeTitle(t) == []
  {
    if t != [] {
      PunctuationOnlyIsEmpty(t[1..]);
      PunctuationIsIgnored([], t[0], t[1..]);
      assert [] + [t[0]] + t[1..] == t;
      assert [] + t[1..] == t[1..];
    }
  }

  /** An item's normalized title equals, contains or is contained in the
      normalized searched title. */
  predicate TitlesMatch(itemTitle: string, searched: string) {
    itemTitle == searched || Contains(itemTitle, searched) || Contains(searched, itemTitle)
  }

  /** Matching is symmetric, equality adds nothing to containment, and the
      empty title matches every title. */
  lemma TitlesMatchProperties(a: string, b: string)
    ensures TitlesMatch(a, b) <==> TitlesMatch(b, a)
    ensures TitlesMatch(a, b) <==> Contains(a, b) || Contains(b, a)
    ensures TitlesMatch([], b) && TitlesMatch(b, [])
  {
    ContainsBasics(a, b);
    ContainsBasics(b, a);
  }

  /** `normalizeTitle(item.title || '')` matches the searched title. */
  predicate ItemMatches(item: Option<string>, searched: string) {
    TitlesMatch(NormalizeTitle(item.GetOr([])), searched)
  }

  /** `items.some(...)`: whether any item matches, tried from the first. */
  function AnyItemMatches(items: seq<Option<string>>, searched: string): bool {
    if items == [] then false
    else ItemMatches(items[0], searched) || AnyItemMatches(items[1..], searched)
  }

  /** Some item matches exactly when there is an index whose item matches. */
  lemma {:induction false} AnyItemMatchesIff(items: seq<Option<string>>, searched: string)
    ensures AnyItemMatches(items, searched) <==> exists i :: 0 <= i < |items| && ItemMatches(items[i], searched)
  {
    if items != [] {
      AnyItemMatchesIff(items[1..], searched);
      if AnyItemMatches(items[1..], searched) {
        var j :| 0 <= j < |items[1..]| && ItemMatches(items[1..][j], searched);
        assert ItemMatches(items[j + 1], searched);
      }
      if i :| 0 <= i < |items| && ItemMatches(items[i], searched) {
        if i > 0 {
          assert items[1..][i - 1] == items[i];
        }
      }
    }
  }

  /** The media-search answer: `Some(b)` for a boolean, `None` for the
      undefined value `data.items && ...` gives when `items` is absent; a
      failed fetch or JSON parse is `false`. */
  function MediaLookup(fetched: Result<MediaBody>, title: string): Option<bool> {
    match fetched
    case Err(_) => Some(false)
    case Ok(MediaBody(None)) => None
    case Ok(MediaBody(Some(items))) => Some(AnyItemMatches(items, NormalizeTitle(title)))
  }

  /** The media answer is `true` exactly when the body has an `items` list
      with an item whose normalized title matches the normalized search
      title; an empty list gives `false`, an absent one gives undefined. */
  lemma MediaLookupIff(fetched: Result<MediaBody>, title: string)
    ensures MediaLookup(fetched, title) == Some(true) <==>
      fetched.Ok? && fetched.value.items.Some?
      && exists i :: 0 <= i < |fetched.value.items.value|
                     && ItemMatches(fetched.value.items.value[i], NormalizeTitle(title))
    ensures fetched == Ok(MediaBody(Some([]))) ==> MediaLookup(fetched, title) == Some(false)
    ensures fetched == Ok(MediaBody(None)) ==> MediaLookup(fetched, title).None?
  {
    if fetched.Ok? && fetched.value.items.Some? {
      AnyItemMatchesIff(fetched.value.items.value, NormalizeTitle(title));
    }
  }

  /** An item without a title, or with a title of punctuation only, matches
      every search, so any list holding one makes the book available. */
  lemma UntitledItemMatchesAll(items: seq<Option<string>>, i: int, title: string)
    requires 0 <= i < |items|
    requires items[i].None? || IsPunctuationOnly(items[i].value)
    ensures MediaLookup(Ok(MediaBody(Some(items))), title) == Some(true)
  {
    var t := items[i].GetOr([]);
    assert IsPunctuationOnly(t);
    PunctuationOnlyIsEmpty(t);
    TitlesMatchProperties([], NormalizeTitle(title));
    assert ItemMatches(items[i], NormalizeTitle(title));
    AnyItemMatchesIff(items, NormalizeTitle(title));
  }

  /** A search title of punctuation only matches every item, so any non-empty
      list makes the book available. */
  lemma PunctuationSearchMatchesAll(items: seq<Option<string>>, title: string)
    requires items != []
    requires IsPunctuationOnly(title)
    ensures MediaLookup(Ok(MediaBody(Some(items))), title) == Some(true)
  {
    PunctuationOnlyIsEmpty(title);
    TitlesMatchProperties(NormalizeTitle(items[0].GetOr([])), []);
    assert ItemMatches(items[0], NormalizeTitle(title));
    AnyItemMatchesIff(items, NormalizeTitle(title));
  }

  // ---------------------------------------------------------------------
  // The message handler.

  /** The URL the handler fetches for a message, if it handles it. */
  function RequestedUrl(msg: Message): Option<string> {
    if msg.kind == LibraryLookup then Some(StructuredQueryUrl(msg.author, msg.title))
    else if msg.kind == LibbyLookup then Some(KeywordQueryUrl(msg.title, msg.author))
    else None
  }

  /** The reply the handler sends for a message; `None` when it sends none. */
  function HandleMessage(msg: Message, net: Network): Option<Reply> {
    match RequestedUrl(msg)
    case None => None
    case Some(url) =>
      if msg.kind == LibraryLookup then Some(Reply(Some(StructuredLookup(net.html(url)))))
      else Some(Reply(MediaLookup(net.json(url), msg.title)))
  }

  /** Only the two lookup types get a reply, and each reply is computed from
      what the network returns for the URL that type requests. */
  lemma DispatchByType(msg: Message, net: Network)
    ensures HandleMessage(msg, net).Some? <==> msg.kind in {LibraryLookup, LibbyLookup}
    ensures HandleMessage(msg, net).Some? <==> RequestedUrl(msg).Some?
    ensures msg.kind == LibraryLookup ==>
      HandleMessage(msg, net)
      == Some(Reply(Some(StructuredLookup(net.html(StructuredQueryUrl(msg.author, msg.title))))))
    ensures msg.kind == LibbyLookup ==>
      HandleMessage(msg, net)
      == Some(Reply(MediaLookup(net.json(KeywordQueryUrl(msg.title, msg.author)), msg.title)))
  {
  }

  /** A failed fetch, body read or parse on either path is answered with
      `isAvailable: false`. */
  lemma FailClosed(msg: Message, net: Network)
    requires RequestedUrl(msg).Some?
    requires msg.kind == LibraryLookup ==> net.html(RequestedUrl(msg).value).Err?
    requires msg.kind == LibbyLookup ==> net.json(RequestedUrl(msg).value).Err?
    ensures HandleMessage(msg, net) == Some(Reply(Some(false)))
  {
    var url := RequestedUrl(msg).value;
    if msg.kind == LibraryLookup {
      assert StructuredLookup(net.html(url)) == false;
    } else {
      assert msg.kind == LibbyLookup;
      assert MediaLookup(net.json(url), msg.title) == Some(false);
    }
  }

  /** A structured-index lookup always answers with a defined boolean. */
  lemma LibraryReplyIsDefined(msg: Message, net: Network)
    requires msg.kind == LibraryLookup
    ensures HandleMessage(msg, net).Some? && HandleMessage(msg, net).value.isAvailable.Some?
  {
  }
}

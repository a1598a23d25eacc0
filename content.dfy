/** content.js: the page script. It reads the author and title of each book
    on a list page (or of the one book on a detail page), asks the background
    handler whether the catalogue holds it, and shows a link to the catalogue
    search with an availability mark. The DOM is reduced to the texts the
    script reads and the cell it writes. */
module Content {
  import opened Wrappers
  import opened JsString
  import opened Uri
  import opened UriQuery
  import Background

  // ---------------------------------------------------------------------
  // Author names: "Last, First" becomes "First Last".

  /** `formatAuthorName`: split at commas; with exactly two pieces, the
      trimmed second piece, one space and the trimmed first piece; otherwise
      the name unchanged, untrimmed. */
  function FormatAuthorName(author: string): (r: string)
    ensures Count(author, ',') != 1 ==> r == author
    ensures Count(author, ',') == 1 ==> ',' !in r
  {
    var parts := Split(author, ',');
    if |parts| == 2 then
      TrimKeepsCharacters(parts[0], ',');
      TrimKeepsCharacters(parts[1], ',');
      Trim(parts[1]) + " " + Trim(parts[0])
    else author
  }

  lemma CountSplitsAt(author: string, i: int)
    requires 0 <= i < |author| && author[i] == ','
    ensures author == author[..i] + [','] + author[i + 1..]
    ensures Count(author, ',') == Count(author[..i], ',') + 1 + Count(author[i + 1..], ',')
  {
    var last, first := author[..i], author[i + 1..];
    assert author == last + [','] + first;
    CountAround(last, first, ',');
  }

  /** With exactly one comma, at position `i`, the result is the trimmed text
      after the comma, a space and the trimmed text before it. */
  lemma FormatAuthorOneComma(author: string, i: int)
    requires 0 <= i < |author| && author[i] == ',' && Count(author, ',') == 1
    ensures FormatAuthorName(author) == Trim(author[i + 1..]) + " " + Trim(author[..i])
  {
    var last, first := author[..i], author[i + 1..];
    CountSplitsAt(author, i);
    SplitAfterPiece(last, first, ',');
    SplitNoSeparator(first, ',');
  }

  /** "Last, First" with trimmed, comma-free halves comes out as "First Last". */
  lemma FormatAuthorSwapsNames(last: string, first: string)
    requires ',' !in last && ',' !in first && IsTrimmed(last) && IsTrimmed(first)
    ensures FormatAuthorName(last + ", " + first) == first + " " + last
  {
    var author := last + ", " + first;
    assert author == last + [','] + (" " + first);
    SplitAfterPiece(last, " " + first, ',');
    assert ',' !in " " + first;
    SplitNoSeparator(" " + first, ',');
    assert AllWhitespace(" ");
    TrimAfterWhitespace(" ", first);
  }

  /** An empty first name is not special: "Orwell," becomes " Orwell", with a
      leading space. */
  lemma FormatAuthorEmptyFirstName(last: string)
    requires ',' !in last && IsTrimmed(last)
    ensures FormatAuthorName(last + ",") == " " + last
  {
    var author := last + ",";
    var empty: string := [];
    assert author == last + [','] + empty;
    SplitAfterPiece(last, empty, ',');
    SplitNoSeparator(empty, ',');
    assert Split(author, ',') == [last, empty];
    assert IsTrimmed(empty);
  }

  /** Formatting a formatted name changes nothing more. */
  lemma FormatAuthorIdempotent(author: string)
    ensures FormatAuthorName(FormatAuthorName(author)) == FormatAuthorName(author)
  {
    var r := FormatAuthorName(author);
    if Count(author, ',') == 1 {
      assert Count(r, ',') == 0;
    }
  }

  // ---------------------------------------------------------------------
  // Titles: the cell text without its grey annotation spans.

  /** One pass of the loop: remove the first occurrence of the trimmed span
      text, then trim. */
  function CleanStep(title: string, span: string): (r: string)
    ensures IsTrimmed(r) && |r| <= |title|
  {
    Trim(ReplaceFirst(title, Trim(span)))
  }

  /** The passes for `spans`, in order, starting from `title`. */
  function CleanSteps(title: string, spans: seq<string>): (r: string)
    ensures |r| <= |title|
    ensures IsTrimmed(title) ==> IsTrimmed(r)
    decreases spans
  {
    if spans == [] then title else CleanSteps(CleanStep(title, spans[0]), spans[1..])
  }

  /** The cleaned title of a cell with text `text` and annotation spans with
      texts `spans`: trimmed, and never longer than the trimmed cell text. */
  function CleanedTitle(text: string, spans: seq<string>): (r: string)
    ensures IsTrimmed(r) && |r| <= |Trim(text)|
  {
    CleanSteps(Trim(text), spans)
  }

  /** `getCleanedTitle`, as the script runs it: trim, then one pass per span. */
  method GetCleanedTitle(text: string, spans: seq<string>) returns (title: string)
    ensures title == CleanedTitle(text, spans)
  {
    title := Trim(text);
    var i := 0;
    while i < |spans|
      invariant 0 <= i <= |spans|
      invariant CleanSteps(title, spans[i..]) == CleanedTitle(text, spans)
    {
      assert spans[i..][1..] == spans[i + 1..];
      title := CleanStep(title, spans[i]);
      i := i + 1;
    }
    assert spans[i..] == [];
  }

  /** Without annotation spans the cleaned title is the trimmed text. */
  lemma CleanedTitleWithoutSpans(text: string)
    ensures CleanedTitle(text, []) == Trim(text)
  {
  }

  /** A pass removes exactly the first occurrence of the trimmed span text,
      and leaves a trimmed title without one unchanged. */
  lemma CleanStepRemovesFirstOccurrence(title: string, span: string, i: int)
    requires IsTrimmed(title)
    ensures (forall j :: !OccursAt(title, Trim(span), j)) ==> CleanStep(title, span) == title
    ensures OccursAt(title, Trim(span), i) && (forall j :: 0 <= j < i ==> !OccursAt(title, Trim(span), j))
            ==> CleanStep(title, span) == Trim(title[..i] + title[i + |Trim(span)|..])
  {
    ReplaceFirstRemovesFirstOccurrence(title, Trim(span), i);
  }

  /** Spans whose text does not occur in the title remove nothing. */
  lemma {:induction false} CleanStepsWithoutOccurrences(title: string, spans: seq<string>)
    requires IsTrimmed(title)
    requires forall k :: 0 <= k < |spans| ==> !Contains(title, Trim(spans[k]))
    ensures CleanSteps(title, spans) == title
  {
    if spans != [] {
      ContainsIff(title, Trim(spans[0]));
      CleanStepRemovesFirstOccurrence(title, spans[0], 0);
      assert CleanStep(title, spans[0]) == title;
      CleanStepsWithoutOccurrences(title, spans[1..]);
    }
  }

  /** Blank annotation spans remove nothing. */
  lemma {:induction false} BlankSpansRemoveNothing(title: string, spans: seq<string>)
    requires IsTrimmed(title)
    requires forall k :: 0 <= k < |spans| ==> AllWhitespace(spans[k])
    ensures CleanSteps(title, spans) == title
  {
    if spans != [] {
      var p := Trim(spans[0]);
      TrimAllWhitespace(spans[0]);
      assert OccursAt(title, p, 0);
      assert title[..0] + title[0..] == title;
      BlankSpansRemoveNothing(title, spans[1..]);
    }
  }

  // ---------------------------------------------------------------------
  // Asking the background handler.

  /** What the messaging channel hands back for a message: the handler's
      reply, or `None` when no reply arrives. */
  type Channel = Background.Message -> Option<Background.Reply>

  /** The channel when the background handler answers with the network `net`. */
  function ToBackground(net: Background.Network): Channel {
    msg => Background.HandleMessage(msg, net)
  }

  const NoValidResponse: string := "No response or invalid response from background script"

  /** The promise's outcome for a reply: its `isAvailable` when a reply with
      a defined `isAvailable` arrived, a rejection otherwise. */
  function Accept(response: Option<Background.Reply>): (r: Result<bool>)
    ensures r.Ok? <==> response.Some? && response.value.isAvailable.Some?
    ensures r.Ok? ==> Some(r.value) == response.value.isAvailable
  {
    match response
    case Some(Reply(Some(b))) => Ok(b)
    case _ => Err(NoValidResponse)
  }

  /** `checkLibraryAvailability(author, title)`: always a structured-index
      lookup. */
  function CheckLibraryAvailability(author: string, title: string, channel: Channel): Result<bool> {
    Accept(channel(Background.Message(Background.LibraryLookup, author, title)))
  }

  /** Against the background handler the lookup never rejects: it resolves to
      the classification of what the network returned for the structured URL. */
  lemma LibraryLookupResolves(author: string, title: string, net: Background.Network)
    ensures CheckLibraryAvailability(author, title, ToBackground(net))
            == Ok(Background.StructuredLookup(net.html(Background.StructuredQueryUrl(author, title))))
  {
    Background.LibraryReplyIsDefined(Background.Message(Background.LibraryLookup, author, title), net);
  }

  /** A media reply without an `items` list carries no defined answer and
      would be rejected. */
  lemma UndefinedMediaReplyIsRejected(title: string, author: string, net: Background.Network)
    requires net.json(Background.KeywordQueryUrl(title, author)) == Ok(Background.MediaBody(None))
    ensures Accept(ToBackground(net)(Background.Message(Background.LibbyLookup, author, title))).Err?
  {
  }

  // ---------------------------------------------------------------------
  // The link and mark the script writes.

  /** The catalogue link of a book, as the script writes it. */
  function CatalogueLink(author: string, title: string): string {
    Background.CatalogueSearch + "?query="
    + (Background.AuthorClauseOpen + EncodeUriComponent(author)
       + Background.TitleClauseOpen + EncodeUriComponent(title) + Background.FormatClause)
  }

  /** The link opens the very search the background handler fetched, and the
      catalogue reads from it exactly the author and title that were looked up. */
  lemma CatalogueLinkIsFetchedUrl(author: string, title: string)
    ensures CatalogueLink(author, title) == Background.StructuredQueryUrl(author, title)
    ensures QueryParameter(CatalogueLink(author, title), "query")
            == Some(Background.StructuredQueryText(author, title))
  {
    Background.StructuredQueryDecodes(author, title);
  }

  /** What the script leaves in the status cell or element. */
  datatype Cell =
    | Link(href: string, text: string)   // an anchor opening the catalogue search
    | Text(text: string)                 // plain text, after a rejected lookup

  const Available: string := "✅"
  const Unavailable: string := "❌"
  const AvailableStatus: string := "✅ Exists In Liverpool Library Catalogue"
  const UnavailableStatus: string := "❌ Not Available in Liverpool Library Catalogue"
  const ErrorStatus: string := "❌ Error"

  /** The list-page cell: a link marked ✅ or ❌, or a bare ❌ on rejection. */
  function ListCell(author: string, title: string, outcome: Result<bool>): Cell {
    match outcome
    case Ok(b) => Link(CatalogueLink(author, title), if b then Available else Unavailable)
    case Err(_) => Text(Unavailable)
  }

  /** The detail-page element: a link with the availability sentence, or
      "❌ Error" on rejection. */
  function DetailStatus(author: string, title: string, outcome: Result<bool>): Cell {
    match outcome
    case Ok(b) => Link(CatalogueLink(author, title), if b then AvailableStatus else UnavailableStatus)
    case Err(_) => Text(ErrorStatus)
  }

  /** The mark is ✅ exactly when the lookup resolved to `true`; a rejected
      lookup shows ❌ (or "❌ Error") without a link. */
  lemma MarkIff(author: string, title: string, outcome: Result<bool>)
    ensures ListCell(author, title, outcome).text == Available <==> outcome == Ok(true)
    ensures DetailStatus(author, title, outcome).text == AvailableStatus <==> outcome == Ok(true)
    ensures outcome.Err? ==> ListCell(author, title, outcome) == Text(Unavailable)
    ensures outcome.Err? ==> DetailStatus(author, title, outcome) == Text(ErrorStatus)
    ensures outcome.Ok? ==> ListCell(author, title, outcome).Link? && DetailStatus(author, title, outcome).Link?
  {
    assert Available != Unavailable by { assert Available[0] != Unavailable[0]; }
    assert AvailableStatus != UnavailableStatus by { assert AvailableStatus[0] != UnavailableStatus[0]; }
  }

  // ---------------------------------------------------------------------
  // List pages.

  /** A title cell: its text and the texts of its grey annotation spans. */
  datatype TitleCell = TitleCell(text: string, spans: seq<string>)

  /** A table row: its title and author cells, when present. */
  datatype Row = Row(titleCell: Option<TitleCell>, authorText: Option<string>)

  /** `handleNewRow`: the cell appended to a row with both cells, none
      otherwise. */
  function HandleNewRow(row: Row, channel: Channel): Option<Cell> {
    match (row.titleCell, row.authorText)
    case (Some(cell), Some(authorText)) =>
      var title := CleanedTitle(cell.text, cell.spans);
      var author := FormatAuthorName(Trim(authorText));
      Some(ListCell(author, title, CheckLibraryAvailability(author, title, channel)))
    case _ => None
  }

  /** A row with both cells gets a link to the search the background handler
      fetched for its cleaned title and formatted author, marked by the
      page's classification. */
  lemma RowLinkIsFetchedSearch(row: Row, net: Background.Network)
    requires row.titleCell.Some? && row.authorText.Some?
    ensures var title := CleanedTitle(row.titleCell.value.text, row.titleCell.value.spans);
            var author := FormatAuthorName(Trim(row.authorText.value));
            var available := Background.StructuredLookup(net.html(Background.StructuredQueryUrl(author, title)));
            HandleNewRow(row, ToBackground(net))
            == Some(Link(Background.StructuredQueryUrl(author, title), if available then Available else Unavailable))
  {
    var title := CleanedTitle(row.titleCell.value.text, row.titleCell.value.spans);
    var author := FormatAuthorName(Trim(row.authorText.value));
    LibraryLookupResolves(author, title, net);
    CatalogueLinkIsFetchedUrl(author, title);
  }

  /** A row missing either cell is left alone. */
  lemma IncompleteRowIsSkipped(row: Row, channel: Channel)
    ensures HandleNewRow(row, channel).None? <==> row.titleCell.None? || row.authorText.None?
  {
  }

  // ---------------------------------------------------------------------
  // Detail pages and routing.

  const GoodreadsOrigin: string := "https://www.goodreads.com"
  const BookShowPath: string := "/book/show/"
  const ListPath: string := "/list"

  /** The prefix a detail page's address must start with. */
  const DetailPrefix: string := GoodreadsOrigin + BookShowPath

  /** What the detail-page handler reads: the page address and the texts of
      the title heading and the author link, when present. */
  datatype DetailPage = DetailPage(href: string, titleText: Option<string>, authorText: Option<string>)

  /** `handleBookDetailPage`: nothing unless the address starts with the
      detail prefix and both elements exist; the author is only trimmed. */
  function HandleBookDetailPage(page: DetailPage, channel: Channel): Option<Cell> {
    if !StartsWith(page.href, DetailPrefix) then None
    else
      match (page.titleText, page.authorText)
      case (Some(t), Some(a)) =>
        var title, author := Trim(t), Trim(a);
        Some(DetailStatus(author, title, CheckLibraryAvailability(author, title, channel)))
      case _ => None
  }

  /** The detail handler writes something exactly when the address has the
      detail prefix and both elements exist, and then links the search for the
      trimmed author (not reordered) and title. */
  lemma DetailPageIff(page: DetailPage, net: Background.Network)
    ensures HandleBookDetailPage(page, ToBackground(net)).Some? <==>
      StartsWith(page.href, DetailPrefix) && page.titleText.Some? && page.authorText.Some?
    ensures HandleBookDetailPage(page, ToBackground(net)).Some? ==>
      var title, author := Trim(page.titleText.value), Trim(page.authorText.value);
      HandleBookDetailPage(page, ToBackground(net)).value.Link?
      && HandleBookDetailPage(page, ToBackground(net)).value.href == Background.StructuredQueryUrl(author, title)
  {
    if HandleBookDetailPage(page, ToBackground(net)).Some? {
      var title, author := Trim(page.titleText.value), Trim(page.authorText.value);
      LibraryLookupResolves(author, title, net);
      CatalogueLinkIsFetchedUrl(author, title);
    }
  }

  /** The handler `determinePageTypeAndHandle` picks. */
  datatype Handler = DetailHandler | ListHandler | NoHandler

  function Route(href: string): Handler {
    if Contains(href, BookShowPath) then DetailHandler
    else if Contains(href, ListPath) then ListHandler
    else NoHandler
  }

  /** A book address goes to the detail handler even when it also holds
      "/list"; the list handler runs only for list addresses that are not
      book addresses. */
  lemma RoutePrecedence(href: string)
    ensures Route(href) == DetailHandler <==> Contains(href, BookShowPath)
    ensures Route(href) == ListHandler <==> !Contains(href, BookShowPath) && Contains(href, ListPath)
  {
  }

  /** Every address with the detail prefix is routed to the detail handler. */
  lemma DetailPrefixRoutesToDetail(href: string)
    requires StartsWith(href, DetailPrefix)
    ensures Route(href) == DetailHandler
  {
    ContainsBasics(BookShowPath, []);
    ContainsExtend(GoodreadsOrigin, BookShowPath, href[|DetailPrefix|..], BookShowPath);
    assert href == GoodreadsOrigin + BookShowPath + href[|DetailPrefix|..];
  }

  /** A book address of another site is routed to the detail handler, which
      then does nothing. */
  lemma ForeignBookPageDoesNothing(page: DetailPage, channel: Channel)
    requires !StartsWith(page.href, DetailPrefix)
    ensures HandleBookDetailPage(page, channel).None?
  {
  }
}

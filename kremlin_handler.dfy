/**
 * The kremlin.ru harvester of `kremlin_handler.py`: the search-result page loop, the
 * parsing of one result entry into a document record, the cleaning of its title, and
 * the paragraph logic of the article-text extractor.
 *
 * A fetched page is given as a `PageResponse`: the entries BeautifulSoup finds inside
 * `div.events`, or the kind of exception the request raised. An entry is given as what
 * the element lookups return (`h3.hentry__title`, its `<a>`, the `href`, the texts that
 * `get_text(strip=True)` yields, the `<time>` element and its `datetime` attribute).
 */
module KremlinHandler {
  import opened Wrappers
  import opened Seqs
  import opened Strings
  import opened Dates
  import opened Utils

  const KremlinBaseUrl: string := "http://kremlin.ru"

  /** `<time>`: its stripped text and its `datetime` attribute, if any. */
  datatype TimeTag = TimeTag(text: string, datetime: Option<string>)

  /** The `<a>` inside the entry's title: `href`, stripped text, the `span.hentry__meta_acts` text and the `<time>`. */
  datatype Anchor = Anchor(href: Option<string>, text: string, metaText: Option<string>, time: Option<TimeTag>)

  /** `h3.hentry__title`, with its first `<a>` if there is one. */
  datatype Heading = Heading(anchor: Option<Anchor>)

  /** One `div.hentry` of the listing; `Unreadable` stands for an element on which parsing raises. */
  datatype RawEntry = Entry(heading: Option<Heading>) | Unreadable

  /** The dictionary `parse_single_document_entry` returns. */
  datatype Document = Document(title: string, meta: string, date: string, datetime: Option<string>, link: string)

  /** What requesting one page yields. `events` is `None` when the page has no `div.events`. */
  datatype PageResponse = Listing(events: Option<seq<RawEntry>>) | RequestError | OtherError

  /** The query parameters of one request; `page` is sent only from page 2 on. */
  datatype Query = Query(dateSince: string, dateTill: string, page: Option<nat>)

  // ---------------------------------------------------------------- title cleaning

  /**
   * One step of lines 324-327: when `text` is non-empty, cut every occurrence of it out of
   * the title, strip what is left and replace U+00A0 by spaces; otherwise keep the title.
   */
  function CutOut(title: string, text: string): (r: string)
    ensures NoNbsp(title) ==> NoNbsp(r)
    ensures text != [] ==> IsStripped(r) && NoNbsp(r)
    ensures |r| <= |title|
  {
    if text == [] then title
    else
      var rest := Replace(title, text, "");
      RemoveNeverGrows(title, text);
      StripIsStripped(rest);
      DropNbspKeepsStripped(Strip(rest));
      DropNbsp(Strip(rest))
  }

  /**
   * Lines 323-327 as written: the meta and date texts (already free of U+00A0) are cut out
   * of the raw title, which may still hold U+00A0.
   */
  function CleanTitleAsWritten(title: string, meta: string, date: string): (r: string)
    ensures meta == [] && date == [] ==> r == title
    ensures meta != [] || date != [] ==> IsStripped(r) && NoNbsp(r)
    ensures |r| <= |title|
  {
    CutOut(CutOut(title, meta), date)
  }

  /**
   * The title cleaning with the title normalised first, so that the meta and date texts,
   * which are normalised, are found in it even where the page separates words with U+00A0.
   */
  function CleanTitle(title: string, meta: string, date: string): (r: string)
    ensures NoNbsp(r)
    ensures meta != [] || date != [] ==> IsStripped(r)
  {
    CutOut(CutOut(DropNbsp(title), meta), date)
  }

  /** Where the meta text occurs in the title, at least that many characters are cut from it. */
  lemma CleanTitleRemovesMeta(title: string, meta: string, date: string)
    requires meta != [] && Occurs(meta, DropNbsp(title))
    ensures |CleanTitle(title, meta, date)| <= |title| - |meta|
  {
    var t := DropNbsp(title);
    var i :| 0 <= i <= |t| - |meta| && OccursAt(meta, t, i);
    RemoveShrinksOnOccurrence(t, meta, i);
  }

  /** As written, too: where the meta text occurs in the title itself, at least that many characters are cut from it. */
  lemma CleanTitleAsWrittenRemovesMeta(title: string, meta: string, date: string)
    requires meta != [] && Occurs(meta, title)
    ensures |CleanTitleAsWritten(title, meta, date)| <= |title| - |meta|
  {
    var i :| 0 <= i <= |title| - |meta| && OccursAt(meta, title, i);
    RemoveShrinksOnOccurrence(title, meta, i);
  }

  /** As written: where the date text occurs in what is left after the meta text, at least that many characters are cut from it. */
  lemma CleanTitleAsWrittenRemovesDate(title: string, meta: string, date: string)
    requires date != [] && Occurs(date, CutOut(title, meta))
    ensures |CleanTitleAsWritten(title, meta, date)| <= |CutOut(title, meta)| - |date|
  {
    var t := CutOut(title, meta);
    var i :| 0 <= i <= |t| - |date| && OccursAt(date, t, i);
    RemoveShrinksOnOccurrence(t, date, i);
  }

  /** Where the date text occurs in what is left after the meta text, at least that many characters are cut from it. */
  lemma CleanTitleRemovesDate(title: string, meta: string, date: string)
    requires date != [] && Occurs(date, CutOut(DropNbsp(title), meta))
    ensures |CleanTitle(title, meta, date)| <= |CutOut(DropNbsp(title), meta)| - |date|
  {
    var t := CutOut(DropNbsp(title), meta);
    var i :| 0 <= i <= |t| - |date| && OccursAt(date, t, i);
    RemoveShrinksOnOccurrence(t, date, i);
  }

  /** On a title without U+00A0 the cleaning as written and the corrected one agree. */
  lemma CleanTitleAgreesWithoutNbsp(title: string, meta: string, date: string)
    requires NoNbsp(title)
    ensures CleanTitleAsWritten(title, meta, date) == CleanTitle(title, meta, date)
  {
    DropNbspOfClean(title);
  }

  /**
   * As written, a meta text that the page writes with U+00A0 is not cut out: for the title
   * `"x y"` with meta `"x y"` the cleaned title is `"x y"`, the meta text itself.
   */
  lemma CleanTitleAsWrittenKeepsSpacedMeta()
    ensures var title := ['x', NBSP, 'y'];
            Occurs("x y", DropNbsp(title))
            && CleanTitleAsWritten(title, "x y", "") == "x y"
            && CleanTitle(title, "x y", "") == ""
  {
    var title := ['x', NBSP, 'y'];
    SpacedMetaAsWritten();
    SpacedMetaCorrected();
    assert OccursAt("x y", DropNbsp(title), 0);
  }

  lemma SpacedMetaAsWritten()
    ensures CleanTitleAsWritten(['x', NBSP, 'y'], "x y", "") == "x y"
  {
    var title := ['x', NBSP, 'y'];
    assert !Occurs("x y", title) by {
      forall i | 0 <= i <= |title| - 3
        ensures !OccursAt("x y", title, i)
      {
        assert title[1] != ' ';
      }
    }
    ReplaceAbsent(title, "x y", "");
    LStripOfStripped(title);
    RStripOfStripped(title);
  }

  lemma SpacedMetaCorrected()
    ensures DropNbsp(['x', NBSP, 'y']) == "x y"
    ensures CleanTitle(['x', NBSP, 'y'], "x y", "") == ""
  {
    assert DropNbsp(['x', NBSP, 'y']) == "x y";
    assert Replace("x y", "x y", "") == "" by {
      assert "x y"[..3] == "x y";
      assert "x y"[3..] == "";
    }
  }


  // ---------------------------------------------------------------- one entry

  /**
   * `parse_single_document_entry`: `None` without the title heading, its link or a non-empty
   * `href`; otherwise the record with `link` = base URL + `href`, `meta` and `date` normalised
   * (or `""` when absent), `datetime` the attribute (or `""` without a `<time>`), and the title
   * cleaned as lines 323-327 do it.
   */
  function ParseSingleDocumentEntry(heading: Option<Heading>, baseUrl: string): (r: Option<Document>)
    ensures r.None? <==> (heading.None? || heading.value.anchor.None?
                          || heading.value.anchor.value.href.None? || heading.value.anchor.value.href.value == [])
    ensures r.Some? ==> r.value.link == baseUrl + heading.value.anchor.value.href.value
    ensures r.Some? ==> NoNbsp(r.value.meta) && NoNbsp(r.value.date)
    ensures r.Some? ==> var a := heading.value.anchor.value;
                        (a.metaText.None? ==> r.value.meta == "")
                        && (a.metaText.Some? ==> r.value.meta == DropNbsp(a.metaText.value))
                        && (a.time.None? ==> r.value.date == "" && r.value.datetime == Some(""))
                        && (a.time.Some? ==> r.value.date == DropNbsp(a.time.value.text) && r.value.datetime == a.time.value.datetime)
    ensures r.Some? ==> var a := heading.value.anchor.value;
                        (r.value.meta == "" && r.value.date == "" ==> r.value.title == a.text)
                        && (r.value.meta != "" || r.value.date != "" ==> IsStripped(r.value.title) && NoNbsp(r.value.title))
                        && |r.value.title| <= |a.text|
    ensures r.Some? ==> r.value.title == CleanTitleAsWritten(heading.value.anchor.value.text, r.value.meta, r.value.date)
  {
    var h :- heading;
    var a :- h.anchor;
    var href :- a.href;
    if href == [] then None
    else
      var meta := if a.metaText.Some? then DropNbsp(a.metaText.value) else "";
      var date := if a.time.Some? then DropNbsp(a.time.value.text) else "";
      var datetime := if a.time.Some? then a.time.value.datetime else Some("");
      Some(Document(CleanTitleAsWritten(a.text, meta, date), meta, date, datetime, baseUrl + href))
  }

  /** The result of one entry inside the page loop: an entry on which parsing raises is skipped. */
  function DocumentOf(e: RawEntry): Option<Document>
  {
    match e
    case Unreadable => None
    case Entry(heading) => ParseSingleDocumentEntry(heading, KremlinBaseUrl)
  }

  // ---------------------------------------------------------------- article text

  /** One paragraph's text after the whitespace option, numbered with its 1-based position when asked. */
  function FormatParagraph(index: nat, text: string, strip: bool, numbers: bool): (r: Option<string>)
    ensures r.Some? ==> r.value != []
    ensures r.Some? && !numbers ==> r.value == (if strip then Collapse(text) else text)
  {
    var cleaned := if strip then Collapse(text) else text;
    if cleaned == [] then None
    else if numbers then Some("[" + NatToString(index) + "] " + cleaned)
    else Some(cleaned)
  }

  /** The texts appended to `all_paragraphs_text_list`, in paragraph order; paragraph `i` has number `i + 1`. */
  function KeptParagraphs(ps: seq<string>, strip: bool, numbers: bool): (r: seq<string>)
    ensures |r| <= |ps|
  {
    if ps == [] then []
    else
      var last := FormatParagraph(|ps|, ps[|ps| - 1], strip, numbers);
      KeptParagraphs(ps[..|ps| - 1], strip, numbers) + (if last.Some? then [last.value] else [])
  }

  /**
   * The value of `extract_article_text_with_options` given the paragraph texts of the first
   * matching `<article>` (`None` when there is none).
   */
  function ArticleText(article: Option<seq<string>>, separator: string, strip: bool, numbers: bool): Option<string>
  {
    if article.None? || article.value == [] then None
    else
      var text := Join(KeptParagraphs(article.value, strip, numbers), separator);
      if text == [] then None else Some(text)
  }

  method ExtractArticleTextWithOptions(article: Option<seq<string>>, separator: string, strip: bool, numbers: bool)
    returns (r: Option<string>)
    ensures r == ArticleText(article, separator, strip, numbers)
  {
    if article.None? {
      return None;
    }
    var ps := article.value;
    if ps == [] {
      return None;
    }
    var kept: seq<string> := [];
    for i := 0 to |ps|
      invariant kept == KeptParagraphs(ps[..i], strip, numbers)
    {
      var formatted := FormatParagraph(i + 1, ps[i], strip, numbers);
      assert ps[..i + 1][..i] == ps[..i];
      if formatted.Some? {
        kept := kept + [formatted.value];
      }
    }
    assert ps[..|ps|] == ps;
    var text := Join(kept, separator);
    r := if text == [] then None else Some(text);
  }

  /** Every kept text comes from a paragraph at some 1-based position, so numbers may skip. */
  lemma {:induction false} KeptParagraphOrigin(ps: seq<string>, strip: bool, numbers: bool, u: string)
    ensures u in KeptParagraphs(ps, strip, numbers)
            <==> exists i :: 0 <= i < |ps| && FormatParagraph(i + 1, ps[i], strip, numbers) == Some(u)
  {
    if ps != [] {
      var n := |ps| - 1;
      var init := ps[..n];
      var last := FormatParagraph(n + 1, ps[n], strip, numbers);
      assert KeptParagraphs(ps, strip, numbers) == KeptParagraphs(init, strip, numbers) + (if last.Some? then [last.value] else []);
      KeptParagraphOrigin(init, strip, numbers, u);
      if u in KeptParagraphs(ps, strip, numbers) {
        if u in KeptParagraphs(init, strip, numbers) {
          var i :| 0 <= i < |init| && FormatParagraph(i + 1, init[i], strip, numbers) == Some(u);
          assert 0 <= i < |ps| && FormatParagraph(i + 1, ps[i], strip, numbers) == Some(u);
        } else {
          assert 0 <= n < |ps| && FormatParagraph(n + 1, ps[n], strip, numbers) == Some(u);
        }
      } else {
        forall i | 0 <= i < |ps|
          ensures FormatParagraph(i + 1, ps[i], strip, numbers) != Some(u)
        {
          if i < n {
            assert init[i] == ps[i];
          }
        }
      }
    }
  }

  /** With whitespace collapsing on and numbering off, every kept paragraph is a non-empty collapsed text. */
  lemma KeptParagraphsCollapsed(ps: seq<string>)
    ensures forall u :: u in KeptParagraphs(ps, true, false) ==> u != [] && IsCollapsed(u)
  {
    forall u | u in KeptParagraphs(ps, true, false)
      ensures u != [] && IsCollapsed(u)
    {
      KeptParagraphOrigin(ps, true, false, u);
      var i :| 0 <= i < |ps| && FormatParagraph(i + 1, ps[i], true, false) == Some(u);
      CollapseIsCollapsed(ps[i]);
    }
  }

  /**
   * The extractor answers `None` exactly when there is no article, no paragraph, or no
   * paragraph whose cleaned text is non-empty.
   */
  lemma ArticleTextNoneIff(article: Option<seq<string>>, separator: string, strip: bool, numbers: bool)
    ensures ArticleText(article, separator, strip, numbers).None?
            <==> article.None?
                 || forall i :: 0 <= i < |article.value| ==> FormatParagraph(i + 1, article.value[i], strip, numbers).None?
  {
    if article.Some? {
      var ps := article.value;
      var kept := KeptParagraphs(ps, strip, numbers);
      forall j | 0 <= j < |kept|
        ensures kept[j] != []
      {
        KeptParagraphOrigin(ps, strip, numbers, kept[j]);
      }
      JoinEmptyIff(kept, separator);
      if kept != [] {
        KeptParagraphOrigin(ps, strip, numbers, kept[0]);
      }
      if exists i :: 0 <= i < |ps| && FormatParagraph(i + 1, ps[i], strip, numbers).Some? {
        var i :| 0 <= i < |ps| && FormatParagraph(i + 1, ps[i], strip, numbers).Some?;
        KeptParagraphOrigin(ps, strip, numbers, FormatParagraph(i + 1, ps[i], strip, numbers).value);
      }
    }
  }

  /** With collapsing on, a paragraph is dropped exactly when it is all whitespace. */
  lemma ParagraphDroppedIff(index: nat, text: string, numbers: bool)
    ensures FormatParagraph(index, text, true, numbers).None? <==> forall i :: 0 <= i < |text| ==> IsSpace(text[i])
  {
    CollapseEmptyIff(text);
  }

  // ---------------------------------------------------------------- the page loop

  /** What requesting page `n + 1` yields; the site answers an empty listing past the given pages. */
  function Response(pages: seq<PageResponse>, n: nat): PageResponse
  {
    if n < |pages| then pages[n] else Listing(Some([]))
  }

  /** The page has a `div.events` container holding at least one entry. */
  predicate HasEntries(r: PageResponse)
  {
    r.Listing? && r.events.Some? && r.events.value != []
  }

  /** The 0-based index of the first page, from `i` on, that ends the loop. */
  function StopIndex(pages: seq<PageResponse>, i: nat): (k: nat)
    ensures i <= k && (i <= |pages| ==> k <= |pages|)
    ensures !HasEntries(Response(pages, k))
    ensures forall j :: i <= j < k ==> HasEntries(Response(pages, j))
    decreases |pages| - i
  {
    if !HasEntries(Response(pages, i)) then i else StopIndex(pages, i + 1)
  }

  /** The documents the loop keeps from one page, in entry order. */
  function PageDocuments(r: PageResponse): seq<Document>
    requires HasEntries(r)
  {
    FilterMap(r.events.value, DocumentOf)
  }

  /** The documents kept from the first `n` pages, page after page. */
  function Collected(pages: seq<PageResponse>, n: nat): seq<Document>
    requires forall j :: 0 <= j < n ==> HasEntries(Response(pages, j))
  {
    if n == 0 then [] else Collected(pages, n - 1) + PageDocuments(Response(pages, n - 1))
  }

  /** The request for 1-based page `page`: both dates as `DD.MM.YY`, and `page` only past the first. */
  function QueryFor(startDate: DateTime, endDate: DateTime, page: nat): Query
    requires ValidDateTime(startDate) && ValidDateTime(endDate)
  {
    Query(FormatDdMmYy(startDate), FormatDdMmYy(endDate), if page > 1 then Some(page) else None)
  }

  /** The requests for pages 1 to `n`, in order. */
  function Queries(startDate: DateTime, endDate: DateTime, n: nat): (qs: seq<Query>)
    requires ValidDateTime(startDate) && ValidDateTime(endDate)
    ensures |qs| == n
  {
    seq(n, j requires 0 <= j => QueryFor(startDate, endDate, j + 1))
  }

  /**
   * `get_latest_kremlin_docs`: request pages 1, 2, ... until one has no `div.events`, no entry,
   * or raises; keep every entry that parses. Returns the documents and the requests made.
   */
  method GetLatestKremlinDocs(pages: seq<PageResponse>, startDate: DateTime, endDate: DateTime)
    returns (documents: seq<Document>, queries: seq<Query>)
    requires ValidDateTime(startDate) && ValidDateTime(endDate)
    ensures StopIndex(pages, 0) <= |pages|
    ensures documents == Collected(pages, StopIndex(pages, 0))
    ensures queries == Queries(startDate, endDate, StopIndex(pages, 0) + 1)
  {
    ghost var k := StopIndex(pages, 0);
    documents := [];
    queries := [];
    var currentPage := 1;
    while true
      invariant 1 <= currentPage <= k + 1
      invariant documents == Collected(pages, currentPage - 1)
      invariant queries == Queries(startDate, endDate, currentPage - 1)
      decreases k + 1 - currentPage
    {
      var query := QueryFor(startDate, endDate, currentPage);
      QueriesSnoc(startDate, endDate, currentPage - 1);
      queries := queries + [query];
      var response := Response(pages, currentPage - 1);
      if !response.Listing? || response.events.None? {
        break;
      }
      var entries := response.events.value;
      if entries == [] {
        break;
      }
      var found := CollectPage(entries);
      documents := documents + found;
      currentPage := currentPage + 1;
    }
  }

  lemma QueriesSnoc(startDate: DateTime, endDate: DateTime, n: nat)
    requires ValidDateTime(startDate) && ValidDateTime(endDate)
    ensures Queries(startDate, endDate, n + 1) == Queries(startDate, endDate, n) + [QueryFor(startDate, endDate, n + 1)]
  {
    assert Queries(startDate, endDate, n + 1)[..n] == Queries(startDate, endDate, n);
  }

  /** The inner loop over one page's entries: an entry that parses is appended, any other is skipped. */
  method CollectPage(entries: seq<RawEntry>) returns (found: seq<Document>)
    ensures found == FilterMap(entries, DocumentOf)
  {
    found := [];
    for i := 0 to |entries|
      invariant found == FilterMap(entries[..i], DocumentOf)
    {
      var document := DocumentOf(entries[i]);
      assert entries[..i + 1] == entries[..i] + [entries[i]];
      FilterMapSnoc(entries[..i], entries[i], DocumentOf);
      if document.Some? {
        found := found + [document.value];
      }
    }
    assert entries[..|entries|] == entries;
  }

  /** Every request after the first names its page, and the pages run 1, 2, ... without gaps. */
  lemma QueriesNumberPages(startDate: DateTime, endDate: DateTime, n: nat)
    requires ValidDateTime(startDate) && ValidDateTime(endDate)
    ensures var qs := Queries(startDate, endDate, n);
            forall j :: 0 <= j < n ==>
              qs[j].dateSince == FormatDdMmYy(startDate) && qs[j].dateTill == FormatDdMmYy(endDate)
              && (j == 0 <==> qs[j].page.None?) && (j > 0 ==> qs[j].page == Some(j + 1))
  {
  }

  /** A loop that reaches page `n + 1` with entries on every page before, and none on it, stops there. */
  lemma {:induction false} StopIndexAt(pages: seq<PageResponse>, i: nat, n: nat)
    requires i <= n && !HasEntries(Response(pages, n))
    requires forall j :: i <= j < n ==> HasEntries(Response(pages, j))
    ensures StopIndex(pages, i) == n
    decreases n - i
  {
    if i < n {
      StopIndexAt(pages, i + 1, n);
    }
  }

  /** A request error on page `n + 1` ends the harvest with exactly the documents of the pages before it. */
  lemma ErrorEndsHarvest(pages: seq<PageResponse>, n: nat)
    requires n < |pages| && (pages[n].RequestError? || pages[n].OtherError?)
    requires forall j :: 0 <= j < n ==> HasEntries(pages[j])
    ensures StopIndex(pages, 0) == n
    ensures Collected(pages, StopIndex(pages, 0)) == Collected(pages, n)
  {
    StopIndexAt(pages, 0, n);
  }

  /** An empty first page (or a first page without a listing) yields nothing, after a single request. */
  lemma EmptyFirstPage(pages: seq<PageResponse>)
    requires pages == [] || !HasEntries(pages[0])
    ensures StopIndex(pages, 0) == 0 && Collected(pages, 0) == []
  {
  }

  /** Harvesting more pages only extends the list: what page `m` left is a prefix of what page `n` leaves. */
  lemma {:induction false} CollectedGrows(pages: seq<PageResponse>, m: nat, n: nat)
    requires m <= n && forall j :: 0 <= j < n ==> HasEntries(Response(pages, j))
    ensures Collected(pages, m) <= Collected(pages, n)
    decreases n - m
  {
    if m < n {
      CollectedGrows(pages, m, n - 1);
    }
  }

  /** A document is collected exactly when some entry of an earlier page parses to it. */
  lemma {:induction false} CollectedMember(pages: seq<PageResponse>, n: nat, d: Document)
    requires forall j :: 0 <= j < n ==> HasEntries(Response(pages, j))
    ensures d in Collected(pages, n) <==> exists j :: 0 <= j < n && d in PageDocuments(Response(pages, j))
  {
    if n > 0 {
      CollectedMember(pages, n - 1, d);
    }
  }

  /** A document is on a page's list exactly when one of its entries parses to it. */
  lemma PageDocumentsMember(r: PageResponse, d: Document)
    requires HasEntries(r)
    ensures d in PageDocuments(r) <==> exists i :: 0 <= i < |r.events.value| && DocumentOf(r.events.value[i]) == Some(d)
  {
    FilterMapMember(r.events.value, DocumentOf, d);
  }
}

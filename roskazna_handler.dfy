/**
 * The Federal Treasury harvester of `roskazna_handler.py`: the text extractor that collects
 * an HTML fragment's text, the CDATA cleaning, and the filter of the news feed.
 *
 * `html.parser` itself is given as a function from a fragment to the text chunks it reports
 * to `handle_data`, in document order, or `None` when `feed` raises on the fragment.
 */
module RoskaznaHandler {
  import opened Wrappers
  import opened Seqs
  import opened Strings
  import opened Dates
  import opened Rss

  // ---------------------------------------------------------------- TextExtractorHTMLParser

  /** What `handle_data` keeps of one chunk: its stripped text, when that is not empty. */
  function StrippedData(data: string): (r: Option<string>)
    ensures r.Some? <==> Strip(data) != []
    ensures r.Some? ==> r.value == Strip(data) && IsStripped(r.value)
  {
    StripIsStripped(data);
    if Strip(data) != [] then Some(Strip(data)) else None
  }

  /** The parts `TextExtractorHTMLParser` collects from a sequence of chunks. */
  function KeptParts(chunks: seq<string>): seq<string>
  {
    FilterMap(chunks, StrippedData)
  }

  /** One more chunk adds its stripped text, unless that is empty. */
  lemma KeptPartsStep(chunks: seq<string>, i: nat)
    requires i < |chunks|
    ensures KeptParts(chunks[..i + 1]) == KeptParts(chunks[..i]) + (if Strip(chunks[i]) != [] then [Strip(chunks[i])] else [])
  {
    assert chunks[..i + 1] == chunks[..i] + [chunks[i]];
    FilterMapSnoc(chunks[..i], chunks[i], StrippedData);
  }

  /** Every collected part is a non-empty stripped chunk, and every chunk with text is collected. */
  lemma KeptPartsMember(chunks: seq<string>, p: string)
    ensures p in KeptParts(chunks) <==> exists i :: 0 <= i < |chunks| && p == Strip(chunks[i]) && p != []
    ensures p in KeptParts(chunks) ==> IsStripped(p)
  {
    FilterMapMember(chunks, StrippedData, p);
    if p in KeptParts(chunks) {
      var i :| 0 <= i < |chunks| && StrippedData(chunks[i]) == Some(p);
    }
  }

  /** The extractor's state: the non-empty, stripped texts seen so far, in order. */
  class TextExtractor {
    var parts: seq<string>

    predicate Valid()
      reads this
    {
      forall i :: 0 <= i < |parts| ==> parts[i] != [] && IsStripped(parts[i])
    }

    constructor()
      ensures parts == [] && Valid()
    {
      parts := [];
    }

    /** `handle_data`: the stripped chunk is appended unless it is empty. */
    method HandleData(data: string)
      requires Valid()
      modifies this
      ensures Valid()
      ensures parts == old(parts) + (if Strip(data) != [] then [Strip(data)] else [])
    {
      var stripped := Strip(data);
      StripIsStripped(data);
      if stripped != [] {
        parts := parts + [stripped];
      }
    }

    /** `get_concatenated_text`: the parts joined by single spaces. */
    function ConcatenatedText(): string
      reads this
    {
      Join(parts, " ")
    }

    /** The extractor's text has no whitespace at either end, and is empty only when nothing was collected. */
    lemma ConcatenatedTextStripped()
      requires Valid()
      ensures IsStripped(ConcatenatedText())
      ensures ConcatenatedText() == [] <==> parts == []
    {
      JoinStripped(parts);
    }
  }

  /**
   * The text `get_whole_HTML_element_text` returns for a fragment: `None` when `feed` raises
   * (the chunks given are then `None`), else the joined parts the extractor kept.
   */
  function HtmlText(html: string, dataChunks: string -> Option<seq<string>>): (r: Option<string>)
    ensures r.Some? <==> dataChunks(html).Some?
  {
    var chunks :- dataChunks(html);
    Some(Join(KeptParts(chunks), " "))
  }

  /** The whole-fragment text is stripped, and empty exactly when no chunk holds anything but whitespace. */
  lemma HtmlTextStripped(html: string, dataChunks: string -> Option<seq<string>>)
    requires dataChunks(html).Some?
    ensures IsStripped(HtmlText(html, dataChunks).value)
    ensures HtmlText(html, dataChunks).value == []
            <==> forall i :: 0 <= i < |dataChunks(html).value| ==> Strip(dataChunks(html).value[i]) == []
  {
    var chunks := dataChunks(html).value;
    var parts := KeptParts(chunks);
    forall i | 0 <= i < |parts|
      ensures parts[i] != [] && IsStripped(parts[i])
    {
      KeptPartsMember(chunks, parts[i]);
    }
    JoinStripped(parts);
    if parts == [] {
      forall i | 0 <= i < |chunks|
        ensures Strip(chunks[i]) == []
      {
        if Strip(chunks[i]) != [] {
          KeptPartsMember(chunks, Strip(chunks[i]));
        }
      }
    } else {
      KeptPartsMember(chunks, parts[0]);
    }
  }

  /**
   * `get_whole_HTML_element_text`: a fresh extractor is fed every chunk of the fragment, then asked
   * for its text; `None` when the parser raises.
   */
  method GetWholeHtmlElementText(html: string, dataChunks: string -> Option<seq<string>>) returns (text: Option<string>)
    ensures text == HtmlText(html, dataChunks)
  {
    if dataChunks(html).None? {
      return None;
    }
    var chunks := dataChunks(html).value;
    var parser := new TextExtractor();
    for i := 0 to |chunks|
      invariant parser.Valid()
      invariant parser.parts == KeptParts(chunks[..i])
    {
      KeptPartsStep(chunks, i);
      parser.HandleData(chunks[i]);
    }
    assert chunks[..|chunks|] == chunks;
    var concatenated := parser.ConcatenatedText();
    text := Some(concatenated);
  }

  // ---------------------------------------------------------------- feed items

  /** `get_element_text`: the stripped text of the child, `None` when the child is missing or its text is empty or absent. */
  function GetElementText(item: Item, tag: string): (r: Option<string>)
    ensures r.Some? <==> tag in item && item[tag].Some? && item[tag].value != []
    ensures r.Some? ==> r.value == Strip(item[tag].value) && IsStripped(r.value)
  {
    StripIsStripped(if tag in item && item[tag].Some? then item[tag].value else []);
    if tag in item && item[tag].Some? && item[tag].value != [] then Some(Strip(item[tag].value)) else None
  }

  const CdataOpen: string := "<![CDATA["

  const CdataClose: string := "]]>"

  /** `clean_cdata`: strip, and when the text is wrapped in `<![CDATA[` … `]]>`, unwrap it and strip again. */
  function CleanCdata(text: string): (r: string)
    ensures IsStripped(r)
  {
    var s := Strip(text);
    StripIsStripped(text);
    if StartsWith(s, CdataOpen) && EndsWith(s, CdataClose) then
      WrapperDoesNotOverlap(s);
      StripIsStripped(s[9..|s| - 3]);
      Strip(s[9..|s| - 3])
    else s
  }

  /** The opening and closing markers cannot share characters, so a wrapped text has room for both. */
  lemma WrapperDoesNotOverlap(s: string)
    requires StartsWith(s, CdataOpen) && EndsWith(s, CdataClose)
    ensures |s| >= 12
  {
    assert s[..9] == CdataOpen && s[|s| - 3..] == CdataClose;
    assert forall k :: 0 <= k < 9 ==> s[k] == CdataOpen[k];
    assert s[|s| - 3] == ']' && s[|s| - 2] == ']' && s[|s| - 1] == '>';
  }

  /** The markers of a wrapped text are where the unwrapping looks for them. */
  lemma WrappedMarkers(content: string)
    ensures var s := CdataOpen + content + CdataClose;
            StartsWith(s, CdataOpen) && EndsWith(s, CdataClose) && s[9..|s| - 3] == content
  {
    var s := CdataOpen + content + CdataClose;
    assert s[..9] == CdataOpen;
    assert s[|s| - 3..] == CdataClose;
    assert s[9..|s| - 3] == content;
  }

  /** A text that is wrapped once its ends are stripped gives the stripped content. */
  lemma CleanCdataUnwraps(text: string, content: string)
    requires Strip(text) == CdataOpen + content + CdataClose
    ensures CleanCdata(text) == Strip(content)
  {
    WrappedMarkers(content);
  }

  /** A text that is not wrapped once its ends are stripped is only stripped. */
  lemma CleanCdataOfPlain(text: string)
    requires !StartsWith(Strip(text), CdataOpen) || !EndsWith(Strip(text), CdataClose)
    ensures CleanCdata(text) == Strip(text)
  {
  }

  /** Every text falls under one of the two lemmas above: a wrapped stripped text is the markers around some content. */
  lemma WrappedHasContent(text: string)
    requires StartsWith(Strip(text), CdataOpen) && EndsWith(Strip(text), CdataClose)
    ensures var s := Strip(text); |s| >= 12 && s == CdataOpen + s[9..|s| - 3] + CdataClose
  {
    var s := Strip(text);
    WrapperDoesNotOverlap(s);
    MarkersAround(s);
  }

  lemma MarkersAround(s: string)
    requires StartsWith(s, CdataOpen) && EndsWith(s, CdataClose) && |s| >= 12
    ensures s == CdataOpen + s[9..|s| - 3] + CdataClose
  {
    assert s == s[..9] + s[9..|s| - 3] + s[|s| - 3..];
  }

  /** The dictionary `extract_news_item_data` returns. */
  datatype RoskaznaDocument = RoskaznaDocument(title: string, link: Option<string>, meta: string, pubDate: string)

  /**
   * `extract_news_item_data`: `None` when the date is missing, empty or unparseable, when its
   * calendar day is before the day of `start`, when the title or description is missing, or when
   * the parser raises on the description (the exceptions the function catches).
   */
  function NewsItem(item: Item, start: DateTime, dataChunks: string -> Option<seq<string>>): (r: Option<RoskaznaDocument>)
    ensures r.Some? ==> GetElementText(item, "pubDate").Some?
    ensures r.Some? ==> var d := ParseRssDate(GetElementText(item, "pubDate").value);
                        d.Some? && !DateBefore(DateOf(d.value), DateOf(start))
                        && r.value.pubDate == FormatYmd(DateOf(d.value))
    ensures r.Some? ==> GetElementText(item, "title").Some? && GetElementText(item, "description").Some?
    ensures r.Some? ==> r.value.link == GetElementText(item, "link")
    ensures r.Some? ==> r.value.title == CleanCdata(GetElementText(item, "title").value)
                        && HtmlText(CleanCdata(GetElementText(item, "description").value), dataChunks) == Some(r.value.meta)
    ensures r.Some? ==> IsStripped(r.value.title) && IsStripped(r.value.meta)
  {
    var pubDate := GetElementText(item, "pubDate");
    if pubDate.None? || pubDate.value == [] then None
    else
      var dt :- ParseRssDate(pubDate.value);
      if DateBefore(DateOf(dt), DateOf(start)) then None
      else NewsRecord(item, FormatYmd(DateOf(dt)), dataChunks)
  }

  /**
   * The dictionary for an item whose date passed: `None` when the title or description is missing,
   * or when the parser raises on the description (the inner handler reports it, the dictionary then
   * names an unbound variable, and the outer handler returns `None`).
   */
  function NewsRecord(item: Item, pubDate: string, dataChunks: string -> Option<seq<string>>): (r: Option<RoskaznaDocument>)
    ensures r.Some? <==> GetElementText(item, "title").Some? && GetElementText(item, "description").Some?
                         && dataChunks(CleanCdata(GetElementText(item, "description").value)).Some?
    ensures r.Some? ==> r.value.link == GetElementText(item, "link") && r.value.pubDate == pubDate
    ensures r.Some? ==> r.value.title == CleanCdata(GetElementText(item, "title").value)
                        && HtmlText(CleanCdata(GetElementText(item, "description").value), dataChunks) == Some(r.value.meta)
    ensures r.Some? ==> IsStripped(r.value.title) && IsStripped(r.value.meta)
  {
    var title :- GetElementText(item, "title");
    var description :- GetElementText(item, "description");
    var meta :- HtmlText(CleanCdata(description), dataChunks);
    HtmlTextStripped(CleanCdata(description), dataChunks);
    Some(RoskaznaDocument(CleanCdata(title), GetElementText(item, "link"), meta, pubDate))
  }

  /** Publications of the same calendar day as `start` are kept, whatever their time: only the day is compared. */
  lemma SameDayKept(item: Item, start: DateTime, dataChunks: string -> Option<seq<string>>)
    requires GetElementText(item, "pubDate").Some?
    requires var d := ParseRssDate(GetElementText(item, "pubDate").value); d.Some? && DateOf(d.value) == DateOf(start)
    requires GetElementText(item, "title").Some? && GetElementText(item, "description").Some?
    requires dataChunks(CleanCdata(GetElementText(item, "description").value)).Some?
    ensures NewsItem(item, start, dataChunks).Some?
  {
    var p := GetElementText(item, "pubDate").value;
    assert ParseRssDate(p).Some?;
    NewsItemOfKept(item, start, dataChunks);
  }

  /** An item whose required texts are there, and whose description the parser reads, is kept exactly when its date parses to a day not before `start`'s. */
  lemma NewsItemKeptIff(item: Item, start: DateTime, dataChunks: string -> Option<seq<string>>)
    requires GetElementText(item, "pubDate").Some?
    requires GetElementText(item, "title").Some? && GetElementText(item, "description").Some?
    requires dataChunks(CleanCdata(GetElementText(item, "description").value)).Some?
    ensures var d := ParseRssDate(GetElementText(item, "pubDate").value);
            NewsItem(item, start, dataChunks).Some? <==> d.Some? && !DateBefore(DateOf(d.value), DateOf(start))
  {
    var d := ParseRssDate(GetElementText(item, "pubDate").value);
    if d.Some? && !DateBefore(DateOf(d.value), DateOf(start)) {
      NewsItemOfKept(item, start, dataChunks);
    } else {
      NewsItemOfDropped(item, start, dataChunks);
    }
  }

  lemma NewsItemOfKept(item: Item, start: DateTime, dataChunks: string -> Option<seq<string>>)
    requires GetElementText(item, "pubDate").Some?
    requires var d := ParseRssDate(GetElementText(item, "pubDate").value); d.Some? && !DateBefore(DateOf(d.value), DateOf(start))
    ensures var d := ParseRssDate(GetElementText(item, "pubDate").value);
            NewsItem(item, start, dataChunks) == NewsRecord(item, FormatYmd(DateOf(d.value)), dataChunks)
  {
    assert GetElementText(item, "pubDate").value != [];
  }

  lemma NewsItemOfDropped(item: Item, start: DateTime, dataChunks: string -> Option<seq<string>>)
    requires GetElementText(item, "pubDate").Some?
    requires var d := ParseRssDate(GetElementText(item, "pubDate").value); d.None? || DateBefore(DateOf(d.value), DateOf(start))
    ensures NewsItem(item, start, dataChunks).None?
  {
  }

  /** An item on whose description the parser raises is dropped, whatever its date. */
  lemma ParserErrorDropsItem(item: Item, start: DateTime, dataChunks: string -> Option<seq<string>>)
    requires GetElementText(item, "description").Some?
    requires dataChunks(CleanCdata(GetElementText(item, "description").value)).None?
    ensures NewsItem(item, start, dataChunks).None?
  {
    var pubDate := GetElementText(item, "pubDate");
    if pubDate.Some? && pubDate.value != [] && ParseRssDate(pubDate.value).Some? {
      var dt := ParseRssDate(pubDate.value).value;
      if !DateBefore(DateOf(dt), DateOf(start)) {
        NewsItemOfKept(item, start, dataChunks);
      }
    }
  }


  function KeepNewsItem(start: DateTime, dataChunks: string -> Option<seq<string>>): Item -> Option<RoskaznaDocument>
  {
    item => NewsItem(item, start, dataChunks)
  }

  /** What `get_latest_roskazna_docs` returns for the items of a feed that was fetched and parsed. */
  function RoskaznaDocuments(items: seq<Item>, start: DateTime, dataChunks: string -> Option<seq<string>>): seq<RoskaznaDocument>
  {
    FilterMap(items, KeepNewsItem(start, dataChunks))
  }

  /** `get_latest_roskazna_docs`: the kept items in feed order; fetch and parse errors are raised again. */
  method GetLatestRoskaznaDocs(feed: Result<seq<Item>, FeedError>, start: DateTime, dataChunks: string -> Option<seq<string>>)
    returns (r: Result<seq<RoskaznaDocument>, FeedError>)
    ensures feed.Failure? ==> r == Failure(feed.error)
    ensures feed.Success? ==> r == Success(RoskaznaDocuments(feed.value, start, dataChunks))
  {
    if feed.Failure? {
      return Failure(feed.error);
    }
    var items := feed.value;
    var documents: seq<RoskaznaDocument> := [];
    for i := 0 to |items|
      invariant documents == FilterMap(items[..i], KeepNewsItem(start, dataChunks))
    {
      var document := NewsItem(items[i], start, dataChunks);
      assert items[..i + 1] == items[..i] + [items[i]];
      FilterMapSnoc(items[..i], items[i], KeepNewsItem(start, dataChunks));
      if document.Some? {
        documents := documents + [document.value];
      }
    }
    assert items[..|items|] == items;
    r := Success(documents);
  }

  /** Every returned document comes from a feed item whose publication day is not before `start`'s. */
  lemma RoskaznaDocumentsNotEarlier(items: seq<Item>, start: DateTime, dataChunks: string -> Option<seq<string>>, d: RoskaznaDocument)
    requires d in RoskaznaDocuments(items, start, dataChunks)
    ensures exists i :: 0 <= i < |items| && NewsItem(items[i], start, dataChunks) == Some(d)
    ensures exists dt :: ValidDateTime(dt) && !DateBefore(DateOf(dt), DateOf(start)) && d.pubDate == FormatYmd(DateOf(dt))
  {
    FilterMapMember(items, KeepNewsItem(start, dataChunks), d);
    var i :| 0 <= i < |items| && NewsItem(items[i], start, dataChunks) == Some(d);
    var dt := ParseRssDate(GetElementText(items[i], "pubDate").value).value;
    assert ValidDateTime(dt);
  }
}

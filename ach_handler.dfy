/**
 * The Accounts Chamber harvester of `ach_handler.py`: the audits listed by the JSON API,
 * filtered by the day they were created.
 *
 * The decoded JSON is given as a datatype, with a missing key as `None` (or as an empty list
 * where the source defaults to one); BeautifulSoup's `get_text` is given as a function.
 */
module AchHandler {
  import opened Wrappers
  import opened Seqs
  import opened Strings
  import opened Dates

  /** One entry of `FILES.REPORT`. */
  datatype ReportFile = ReportFile(src: Option<string>)

  /** One entry of `result.items`; `reports` is `[]` when `FILES` or `REPORT` is missing. */
  datatype AchItem = AchItem(id: Option<string>, name: Option<string>, dateCreate: Option<string>,
                             previewText: Option<string>, reports: seq<ReportFile>)

  datatype AchResult = AchResult(items: Option<seq<AchItem>>)

  /** How the request ends: a request error, a body that is not JSON, or the decoded object. */
  datatype AchResponse = RequestFailed | InvalidJson | Payload(result: Option<AchResult>)

  /** The dictionary built for a kept audit. */
  datatype AchDocument = AchDocument(id: Option<string>, title: Option<string>, meta: string,
                                     link: Option<string>, pubDate: DateTime)

  /** `raw_data.get("result", {}).get("items", [])`, and nothing at all after an error. */
  function AuditItems(response: AchResponse): (r: seq<AchItem>)
    ensures !response.Payload? ==> r == []
    ensures response.Payload? && response.result.Some? && response.result.value.items.Some?
            ==> r == response.result.value.items.value
    ensures response.Payload? && (response.result.None? || response.result.value.items.None?) ==> r == []
  {
    match response
    case Payload(Some(AchResult(Some(items)))) => items
    case _ => []
  }

  /** `report_files[0].get("SRC") if report_files else None`. */
  function ReportLink(reports: seq<ReportFile>): (r: Option<string>)
    ensures reports == [] ==> r.None?
    ensures reports != [] ==> r == reports[0].src
  {
    if reports == [] then None else reports[0].src
  }

  /**
   * One pass of the loop: `None` when the date is missing or empty, does not read as
   * `%d %B %Y` in the Russian locale, or is earlier than `start`.
   */
  function AchItemDoc(item: AchItem, start: DateTime, getText: string -> string): (r: Option<AchDocument>)
    ensures r.Some? ==> item.dateCreate.Some? && ParseRuDate(item.dateCreate.value) == Some(r.value.pubDate)
    ensures r.Some? ==> !Before(r.value.pubDate, start) && r.value.pubDate == Midnight(DateOf(r.value.pubDate))
    ensures r.Some? ==> r.value.id == item.id && r.value.title == item.name
                        && r.value.link == ReportLink(item.reports) && IsStripped(r.value.meta)
    ensures r.Some? ==> r.value.meta == Strip(getText(if item.previewText.Some? then item.previewText.value else ""))
  {
    if item.dateCreate.None? || item.dateCreate.value == [] then None
    else
      var dt :- ParseRuDate(item.dateCreate.value);
      if Before(dt, start) then None
      else
        var preview := if item.previewText.Some? then item.previewText.value else "";
        StripIsStripped(getText(preview));
        Some(AchDocument(item.id, item.name, Strip(getText(preview)), ReportLink(item.reports), dt))
  }

  /** An audit with a readable date is kept exactly when that date is not earlier than `start`. */
  lemma AchItemKeptIff(item: AchItem, start: DateTime, getText: string -> string)
    requires item.dateCreate.Some? && ParseRuDate(item.dateCreate.value).Some?
    ensures AchItemDoc(item, start, getText).Some? <==> !Before(ParseRuDate(item.dateCreate.value).value, start)
  {
    var s := item.dateCreate.value;
    assert s != [] by {
      assert DayField(s).Some?;
    }
  }

  function KeepAchItem(start: DateTime, getText: string -> string): AchItem -> Option<AchDocument>
  {
    item => AchItemDoc(item, start, getText)
  }

  /** What `get_ach_latest_docs` returns for a response. */
  function AchDocuments(response: AchResponse, start: DateTime, getText: string -> string): seq<AchDocument>
  {
    FilterMap(AuditItems(response), KeepAchItem(start, getText))
  }

  /** `get_ach_latest_docs`: errors and an empty or missing item list give an empty list; otherwise the kept audits in order. */
  method GetAchLatestDocs(response: AchResponse, start: DateTime, getText: string -> string) returns (documents: seq<AchDocument>)
    ensures documents == AchDocuments(response, start, getText)
    ensures response.RequestFailed? || response.InvalidJson? ==> documents == []
  {
    documents := [];
    if response.RequestFailed? || response.InvalidJson? {
      return;
    }
    var items := AuditItems(response);
    if items == [] {
      return;
    }
    for i := 0 to |items|
      invariant documents == FilterMap(items[..i], KeepAchItem(start, getText))
    {
      AchDocumentsStep(items, i, start, getText);
      var document := AchItemDoc(items[i], start, getText);
      if document.Some? {
        documents := documents + [document.value];
      }
    }
    assert items[..|items|] == items;
  }

  lemma AchDocumentsStep(items: seq<AchItem>, i: nat, start: DateTime, getText: string -> string)
    requires i < |items|
    ensures var f := KeepAchItem(start, getText);
            FilterMap(items[..i + 1], f) == FilterMap(items[..i], f) + (if f(items[i]).Some? then [f(items[i]).value] else [])
  {
    assert items[..i + 1] == items[..i] + [items[i]];
    FilterMapSnoc(items[..i], items[i], KeepAchItem(start, getText));
  }

  /** Every returned audit comes from the item list and was created on a day whose midnight is not before `start`. */
  lemma AchDocumentsNotEarlier(response: AchResponse, start: DateTime, getText: string -> string, d: AchDocument)
    requires d in AchDocuments(response, start, getText)
    ensures exists i :: 0 <= i < |AuditItems(response)| && AchItemDoc(AuditItems(response)[i], start, getText) == Some(d)
    ensures !Before(d.pubDate, start) && d.pubDate == Midnight(DateOf(d.pubDate))
  {
    FilterMapMember(AuditItems(response), KeepAchItem(start, getText), d);
  }

  // ---------------------------------------------------------------- the three cutoff rules

  /**
   * The three harvesters read "since `start`" differently: the Bank of Russia keeps what is
   * strictly later, the Accounts Chamber what is not earlier, the Treasury what falls on a day
   * not before `start`'s day. Each rule admits everything the previous one admits.
   */
  lemma CutoffRulesNested(dt: DateTime, start: DateTime)
    ensures Before(start, dt) ==> !Before(dt, start)
    ensures !Before(dt, start) ==> !DateBefore(DateOf(dt), DateOf(start))
  {
    BeforeIsStrictTotalOrder(start, dt, start);
    BeforeAgreesWithDates(dt, start);
  }

  /**
   * The rules differ: a publication at the cutoff instant itself is dropped by the strict rule
   * (`start < dt` fails) and kept by the others (`dt < start` fails); one an hour earlier on the
   * same day is dropped by the Accounts Chamber rule and kept by the Treasury rule.
   */
  lemma CutoffRulesDiffer(start: DateTime)
    requires start.hour > 0
    ensures !Before(start, start)
    ensures var earlier := start.(hour := start.hour - 1);
            Before(earlier, start) && !DateBefore(DateOf(earlier), DateOf(start))
  {
    BeforeIsStrictTotalOrder(start, start, start);
  }
}

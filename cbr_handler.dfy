/**
 * The Bank of Russia harvester of `cbr_handler.py`: the file name `download_cbr_pdf`
 * chooses for a downloaded document, the filter of the regulatory-acts feed, and the
 * mapping of the draft-acts feed.
 *
 * The HTTP exchange is given: the `Content-Disposition` header (if any), the URL the
 * response finally came from, and the percent-decoding `unquote` as a function.
 */
module CbrHandler {
  import opened Wrappers
  import opened Seqs
  import opened Strings
  import opened Dates
  import opened Rss

  // ---------------------------------------------------------------- URL scheme

  /** A URL without `http://` or `https://` gets `https://` in front; any other is kept. */
  function EnsureScheme(url: string): (r: string)
    ensures StartsWith(r, "http://") || StartsWith(r, "https://")
    ensures StartsWith(url, "http://") || StartsWith(url, "https://") ==> r == url
    ensures !(StartsWith(url, "http://") || StartsWith(url, "https://")) ==> r == "https://" + url
  {
    if StartsWith(url, "http://") || StartsWith(url, "https://") then url
    else
      assert ("https://" + url)[..8] == "https://";
      "https://" + url
  }

  lemma EnsureSchemeIdempotent(url: string)
    ensures EnsureScheme(EnsureScheme(url)) == EnsureScheme(url)
  {
  }

  // ---------------------------------------------------------------- Content-Disposition

  /** The longest prefix of `s` free of the characters in `stop` (a negated character class with `+` or `*`). */
  function RunWithout(s: string, stop: set<char>): (r: string)
    ensures |r| <= |s| && r == s[..|r|]
    ensures forall i :: 0 <= i < |r| ==> r[i] !in stop
    ensures |r| < |s| ==> s[|r|] in stop
  {
    if s == [] || s[0] in stop then [] else [s[0]] + RunWithout(s[1..], stop)
  }

  const Utf8Marker: string := "filename*=utf-8''"

  const PlainMarker: string := "filename="

  /** The characters `[^;"']` excludes. */
  const Forbidden: set<char> := {';', '"', '\''}

  /** `filename\*=utf-8''([^;]+)` matches at position `i`, ignoring case. */
  predicate Utf8MatchAt(cd: string, i: nat)
  {
    i + |Utf8Marker| < |cd| && StartsWithIgnoreCase(cd[i..], Utf8Marker) && cd[i + |Utf8Marker|] != ';'
  }

  /**
   * `re.search(r"filename\*=utf-8''([^;]+)", cd, re.IGNORECASE).group(1)` from position `i` on:
   * the group of the leftmost match, `None` when there is none.
   */
  function Utf8FilenameFrom(cd: string, i: nat): (r: Option<string>)
    requires i <= |cd|
    ensures r.Some? ==> r.value != [] && ';' !in r.value
    decreases |cd| - i
  {
    if i == |cd| then None
    else if Utf8MatchAt(cd, i) then Some(RunWithout(cd[i + |Utf8Marker|..], {';'}))
    else Utf8FilenameFrom(cd, i + 1)
  }

  /** The search finds a group exactly when some position matches. */
  lemma {:induction false} Utf8FilenameFromFinds(cd: string, i: nat)
    requires i <= |cd|
    ensures Utf8FilenameFrom(cd, i).Some? <==> exists j :: i <= j < |cd| && Utf8MatchAt(cd, j)
    decreases |cd| - i
  {
    if i < |cd| && !Utf8MatchAt(cd, i) {
      Utf8FilenameFromFinds(cd, i + 1);
      assert Utf8FilenameFrom(cd, i) == Utf8FilenameFrom(cd, i + 1);
      if exists j :: i <= j < |cd| && Utf8MatchAt(cd, j) {
        var j :| i <= j < |cd| && Utf8MatchAt(cd, j);
        assert i + 1 <= j;
      }
      if Utf8FilenameFrom(cd, i + 1).Some? {
        var j :| i + 1 <= j < |cd| && Utf8MatchAt(cd, j);
        assert i <= j;
      }
    }
  }

  /** A group found is the group of the leftmost match. */
  lemma {:induction false} Utf8FilenameFromLeftmost(cd: string, i: nat)
    requires i <= |cd| && Utf8FilenameFrom(cd, i).Some?
    ensures exists j :: i <= j < |cd| && Utf8MatchAt(cd, j)
                        && (forall k :: i <= k < j ==> !Utf8MatchAt(cd, k))
                        && Utf8FilenameFrom(cd, i).value == RunWithout(cd[j + |Utf8Marker|..], {';'})
    decreases |cd| - i
  {
    if !Utf8MatchAt(cd, i) {
      Utf8FilenameFromLeftmost(cd, i + 1);
      var j :| i + 1 <= j < |cd| && Utf8MatchAt(cd, j)
               && (forall k :: i + 1 <= k < j ==> !Utf8MatchAt(cd, k))
               && Utf8FilenameFrom(cd, i + 1).value == RunWithout(cd[j + |Utf8Marker|..], {';'});
      assert forall k :: i <= k < j ==> !Utf8MatchAt(cd, k);
    }
  }

  /**
   * `filename=(["']?)([^;"']+)\1` at position `i`, ignoring case: the second group, or `None`.
   * After a quote the name must be closed by the same quote; the regular expression's retry
   * without the quote fails because the quote is not allowed in the name.
   */
  function PlainMatchAt(cd: string, i: nat): (r: Option<string>)
    requires i <= |cd|
    ensures r.Some? ==> r.value != [] && forall c :: c in r.value ==> c !in Forbidden
  {
    if !StartsWithIgnoreCase(cd[i..], PlainMarker) then None
    else
      var j := i + |PlainMarker|;
      if j < |cd| && (cd[j] == '"' || cd[j] == '\'') then
        var name := RunWithout(cd[j + 1..], Forbidden);
        if name != [] && j + 1 + |name| < |cd| && cd[j + 1 + |name|] == cd[j] then Some(name) else None
      else
        var name := RunWithout(cd[j..], Forbidden);
        if name != [] then Some(name) else None
  }

  /** Some `filename=` match starts at position `j`. */
  predicate PlainMatches(cd: string, j: nat)
    requires j <= |cd|
  {
    PlainMatchAt(cd, j).Some?
  }

  /** `re.search(r'filename=(["\']?)([^;"\']+)\1', cd, re.IGNORECASE).group(2)` from position `i` on. */
  function PlainFilenameFrom(cd: string, i: nat): (r: Option<string>)
    requires i <= |cd|
    ensures r.Some? ==> r.value != [] && forall c :: c in r.value ==> c !in Forbidden
    decreases |cd| - i
  {
    if PlainMatches(cd, i) then PlainMatchAt(cd, i)
    else if i == |cd| then None
    else PlainFilenameFrom(cd, i + 1)
  }

  /** The search finds a group exactly when some position matches. */
  lemma {:induction false} PlainFilenameFromFinds(cd: string, i: nat)
    requires i <= |cd|
    ensures PlainFilenameFrom(cd, i).Some? <==> exists j :: i <= j <= |cd| && PlainMatches(cd, j)
    decreases |cd| - i
  {
    if i < |cd| && !PlainMatches(cd, i) {
      PlainFilenameFromFinds(cd, i + 1);
      if exists j :: i <= j <= |cd| && PlainMatches(cd, j) {
        var j :| i <= j <= |cd| && PlainMatches(cd, j);
        assert i + 1 <= j;
      }
    }
  }

  /** A group found is the group of the leftmost match. */
  lemma {:induction false} PlainFilenameFromLeftmost(cd: string, i: nat)
    requires i <= |cd| && PlainFilenameFrom(cd, i).Some?
    ensures exists j :: i <= j <= |cd| && PlainMatches(cd, j) && PlainMatchAt(cd, j) == PlainFilenameFrom(cd, i)
                        && forall k :: i <= k < j ==> !PlainMatches(cd, k)
    decreases |cd| - i
  {
    if !PlainMatches(cd, i) {
      PlainFilenameFromLeftmost(cd, i + 1);
      var j :| i + 1 <= j <= |cd| && PlainMatches(cd, j) && PlainMatchAt(cd, j) == PlainFilenameFrom(cd, i + 1)
               && forall k :: i + 1 <= k < j ==> !PlainMatches(cd, k);
      assert forall k :: i <= k < j ==> !PlainMatches(cd, k);
    }
  }

  /**
   * The name lines 49-62 take from the header: the decoded `filename*=utf-8''` value, else the
   * decoded `filename=` value; `""` stands for Python's `None` as well, since both are falsy.
   */
  function HeaderFilename(disposition: Option<string>, unquote: string -> string): string
  {
    if disposition.None? then ""
    else
      var cd := disposition.value;
      var extended := match Utf8FilenameFrom(cd, 0) case Some(g) => unquote(g) case None => "";
      if extended != "" then extended
      else match PlainFilenameFrom(cd, 0) case Some(g) => unquote(g) case None => ""
  }

  // ---------------------------------------------------------------- URL fallback

  /** `u.split('/')[-1]`: what follows the last `/`, or all of `u`. */
  function LastSegment(u: string): (r: string)
    ensures |r| <= |u| && r == u[|u| - |r|..]
    ensures '/' !in r
    ensures |r| < |u| ==> u[|u| - |r| - 1] == '/'
  {
    if u == [] || u[|u| - 1] == '/' then [] else LastSegment(u[..|u| - 1]) + [u[|u| - 1]]
  }

  /** `u.rstrip('/')`. */
  function RStripSlashes(u: string): (r: string)
    ensures |r| <= |u| && r == u[..|r|] && (r == [] || r[|r| - 1] != '/')
    ensures forall i :: |r| <= i < |u| ==> u[i] == '/'
  {
    if u != [] && u[|u| - 1] == '/' then RStripSlashes(u[..|u| - 1]) else u
  }

  /**
   * Lines 65-75: the last path segment of the final URL without its query; when that has
   * fewer than three characters, the last segment of the requested URL, trailing `/` removed,
   * followed by `.pdf`.
   */
  function UrlFilename(url: string, finalUrl: string): (r: string)
    ensures |r| >= 3
  {
    var name := LastSegment(RunWithout(finalUrl, {'?'}));
    if |name| < 3 then LastSegment(RStripSlashes(url)) + ".pdf" else name
  }

  /** The name before the `.pdf` normalisation: from the header when it yields one, else from the URLs. */
  function RawFilename(url: string, disposition: Option<string>, finalUrl: string, unquote: string -> string): (r: string)
    ensures r != []
  {
    var fromHeader := HeaderFilename(disposition, unquote);
    if fromHeader != "" then fromHeader else UrlFilename(EnsureScheme(url), finalUrl)
  }

  /** The header's `filename*` value, when it decodes to a non-empty name, wins over everything else. */
  lemma ExtendedFilenameFirst(url: string, cd: string, finalUrl: string, unquote: string -> string, g: string)
    requires Utf8FilenameFrom(cd, 0) == Some(g) && unquote(g) != ""
    ensures RawFilename(url, Some(cd), finalUrl, unquote) == unquote(g)
  {
  }

  /** Without a usable `filename*`, a `filename=` value that decodes to a non-empty name is taken. */
  lemma PlainFilenameSecond(url: string, cd: string, finalUrl: string, unquote: string -> string, g: string)
    requires (Utf8FilenameFrom(cd, 0).None? || unquote(Utf8FilenameFrom(cd, 0).value) == "")
    requires PlainFilenameFrom(cd, 0) == Some(g) && unquote(g) != ""
    ensures RawFilename(url, Some(cd), finalUrl, unquote) == unquote(g)
  {
  }

  /**
   * Without a usable header (none, or one that yields no name), the name comes from the URLs, and a
   * short one falls back to the requested URL's last segment.
   */
  lemma UrlFilenameWithoutHeader(url: string, disposition: Option<string>, finalUrl: string, unquote: string -> string)
    requires HeaderFilename(disposition, unquote) == ""
    ensures var name := LastSegment(RunWithout(finalUrl, {'?'}));
            RawFilename(url, disposition, finalUrl, unquote)
            == if |name| < 3 then LastSegment(RStripSlashes(EnsureScheme(url))) + ".pdf" else name
  {
  }

  /** `filename=` followed by a name between two equal quotes matches, and the group is the name. */
  lemma QuotedFilenameMatches(cd: string, i: nat, q: char, name: string)
    requires q == '"' || q == '\''
    requires name != [] && forall c :: c in name ==> c !in Forbidden
    requires i + |PlainMarker| + |name| + 2 <= |cd|
    requires cd[i..i + |PlainMarker| + |name| + 2] == PlainMarker + [q] + name + [q]
    ensures PlainMatchAt(cd, i) == Some(name)
  {
    var j := i + |PlainMarker|;
    assert cd[i..][..|PlainMarker|] == PlainMarker by {
      assert forall k :: 0 <= k < |PlainMarker| ==> cd[i..][k] == cd[i..i + |PlainMarker| + |name| + 2][k];
    }
    var w := cd[i..i + |PlainMarker| + |name| + 2];
    assert cd[j] == w[|PlainMarker|] == q;
    assert cd[j + 1 + |name|] == w[|PlainMarker| + 1 + |name|] == q;
    assert cd[j + 1..][..|name|] == name by {
      forall k | 0 <= k < |name| ensures cd[j + 1..][k] == name[k] {
        assert cd[j + 1..][k] == w[|PlainMarker| + 1 + k];
      }
    }
    RunWithoutOf(cd[j + 1..], Forbidden, name);
  }

  /** `filename=` followed by an unquoted name that runs up to `;`, a quote or the end matches, and the group is the name. */
  lemma BareFilenameMatches(cd: string, i: nat, name: string)
    requires name != [] && forall c :: c in name ==> c !in Forbidden
    requires i + |PlainMarker| + |name| <= |cd|
    requires cd[i..i + |PlainMarker| + |name|] == PlainMarker + name
    requires i + |PlainMarker| + |name| < |cd| ==> cd[i + |PlainMarker| + |name|] in Forbidden
    ensures PlainMatchAt(cd, i) == Some(name)
  {
    var j := i + |PlainMarker|;
    assert cd[i..][..|PlainMarker|] == PlainMarker by {
      assert forall k :: 0 <= k < |PlainMarker| ==> cd[i..][k] == cd[i..i + |PlainMarker| + |name|][k];
    }
    var w := cd[i..i + |PlainMarker| + |name|];
    assert cd[j] == w[|PlainMarker|] == name[0];
    assert name[0] in name;
    assert cd[j..][..|name|] == name by {
      forall k | 0 <= k < |name| ensures cd[j..][k] == name[k] {
        assert cd[j..][k] == w[|PlainMarker| + k];
      }
    }
    RunWithoutOf(cd[j..], Forbidden, name);
  }

  /** A run of allowed characters followed by a stop character or the end is exactly what `RunWithout` reads. */
  lemma {:induction false} RunWithoutOf(s: string, stop: set<char>, name: string)
    requires |name| <= |s| && s[..|name|] == name
    requires forall c :: c in name ==> c !in stop
    requires |name| < |s| ==> s[|name|] in stop
    ensures RunWithout(s, stop) == name
  {
    if name != [] {
      assert s[0] == name[0] && name[0] in name;
      assert s[1..][..|name| - 1] == name[1..];
      forall c | c in name[1..] ensures c !in stop {
        assert c in name;
      }
      RunWithoutOf(s[1..], stop, name[1..]);
    }
  }

  // ---------------------------------------------------------------- .pdf suffix

  /** The four characters of `s` that end at `e` spell `.pdf` in some case. */
  predicate PdfEndsAt(s: string, e: int)
  {
    4 <= e <= |s| && s[e - 4] == '.' && LowerChar(s[e - 3]) == 'p' && LowerChar(s[e - 2]) == 'd'
    && LowerChar(s[e - 1]) == 'f'
  }

  /** The same test, read as `s[e-4:e].lower() == '.pdf'`. */
  lemma PdfEndsAtIgnoresCase(s: string, e: int)
    requires 4 <= e <= |s|
    ensures PdfEndsAt(s, e) <==> EqualsIgnoreCase(s[e - 4..e], ".pdf")
  {
    var w := s[e - 4..e];
    assert w[0] == s[e - 4] && w[1] == s[e - 3] && w[2] == s[e - 2] && w[3] == s[e - 1];
    assert LowerChar(s[e - 4]) == '.' <==> s[e - 4] == '.';
  }

  /** How many `.pdf` (any case) end at position `e` of `s`, one after the other. */
  function PdfRun(s: string, e: nat): (n: nat)
    requires e <= |s|
    ensures 4 * n <= e
    ensures n > 0 <==> PdfEndsAt(s, e)
  {
    if PdfEndsAt(s, e) then 1 + PdfRun(s, e - 4) else 0
  }

  /** Where `$` matches: the end, or just before a final newline. */
  function SubjectEnd(s: string): (e: nat)
    ensures e <= |s| && (e == |s| || (e == |s| - 1 && s[e] == '\n'))
  {
    if s != [] && s[|s| - 1] == '\n' then |s| - 1 else |s|
  }

  /**
   * `re.sub(r'(\.pdf)+$', '.pdf', s, flags=re.IGNORECASE)`: the run of `.pdf` that ends
   * where `$` matches, taken from its leftmost start, becomes one lower-case `.pdf`.
   */
  function CollapsePdfRun(s: string): string
  {
    var e := SubjectEnd(s);
    var n := PdfRun(s, e);
    if n == 0 then s else s[..e - 4 * n] + ".pdf" + s[e..]
  }

  /** Lines 78-82: collapse the run of `.pdf`, then add `.pdf` when the lower-cased name does not end with it. */
  function FixPdfSuffix(s: string): string
  {
    FixPdfSuffixTail(CollapsePdfRun(s))
  }

  /** The second step alone: `.pdf` is appended unless the name ends with it in some case. */
  function FixPdfSuffixTail(t: string): string
  {
    if PdfEndsAt(t, |t|) then t else t + ".pdf"
  }

  /** The run is maximal: no further `.pdf` ends where it starts. */
  lemma {:induction false} PdfRunMaximal(s: string, e: nat)
    requires e <= |s|
    ensures !PdfEndsAt(s, e - 4 * PdfRun(s, e))
  {
    if PdfEndsAt(s, e) {
      PdfRunMaximal(s, e - 4);
    }
  }

  /** Whether `.pdf` ends at `e` depends only on the characters before `e`. */
  lemma PdfEndsAtPrefix(s: string, t: string, e: int)
    requires 4 <= e <= |s| && e <= |t| && s[..e] == t[..e]
    ensures PdfEndsAt(s, e) <==> PdfEndsAt(t, e)
  {
    assert forall k :: e - 4 <= k < e ==> s[k] == s[..e][k] == t[..e][k] == t[k];
  }

  /** `r` is `.pdf` after a stem that does not itself end with `.pdf` in any case. */
  predicate SinglePdfSuffix(r: string)
  {
    EndsWith(r, ".pdf") && !PdfEndsAt(r, |r| - 4)
  }

  /** A `.pdf` ending never ends in a newline. */
  lemma PdfEndIsNotNewline(t: string)
    requires PdfEndsAt(t, |t|)
    ensures t[|t| - 1] != '\n'
  {
  }

  /** A literal `.pdf` ending ends the name with `.pdf` ignoring case. */
  lemma LiteralPdfEnding(t: string)
    requires EndsWith(t, ".pdf")
    ensures PdfEndsAt(t, |t|)
  {
    assert t[|t| - 4..] == ".pdf";
    assert t[|t| - 4] == '.' && t[|t| - 3] == 'p' && t[|t| - 2] == 'd' && t[|t| - 1] == 'f';
  }

  /** Without a run of `.pdf` where `$` matches, `.pdf` is appended. */
  lemma FixPdfSuffixAppends(s: string)
    requires PdfRun(s, SubjectEnd(s)) == 0
    ensures FixPdfSuffix(s) == s + ".pdf" && SinglePdfSuffix(s + ".pdf")
  {
    if PdfEndsAt(s, |s|) {
      PdfEndIsNotNewline(s);
      assert false;
    }
    var r := s + ".pdf";
    assert r[|r| - 4..] == ".pdf";
    if |s| >= 4 {
      assert r[..|s|] == s[..|s|];
      PdfEndsAtPrefix(s, r, |s|);
    }
  }

  /** A run of `.pdf` at the very end becomes one `.pdf`. */
  lemma FixPdfSuffixCollapses(s: string)
    requires SubjectEnd(s) == |s| && PdfRun(s, |s|) > 0
    ensures FixPdfSuffix(s) == s[..|s| - 4 * PdfRun(s, |s|)] + ".pdf"
    ensures SinglePdfSuffix(FixPdfSuffix(s))
  {
    var k := |s| - 4 * PdfRun(s, |s|);
    var t := s[..k] + ".pdf";
    assert s[|s|..] == [];
    assert CollapsePdfRun(s) == t;
    LiteralPdfEnding(t);
    PdfRunMaximal(s, |s|);
    StemKeepsNoPdfEnding(s, k);
  }

  /** `.pdf` after a stem that does not end with `.pdf` is a single `.pdf` suffix. */
  lemma StemKeepsNoPdfEnding(s: string, k: nat)
    requires k <= |s| && !PdfEndsAt(s, k)
    ensures SinglePdfSuffix(s[..k] + ".pdf")
  {
    var t := s[..k] + ".pdf";
    assert t[|t| - 4..] == ".pdf";
    if k >= 4 {
      assert t[..k] == s[..k];
      PdfEndsAtPrefix(s, t, k);
    }
  }

  /** Before a final newline, the run is collapsed and the newline kept. */
  lemma CollapseBeforeNewline(s: string)
    requires SubjectEnd(s) == |s| - 1 && PdfRun(s, |s| - 1) > 0
    ensures CollapsePdfRun(s) == s[..|s| - 1 - 4 * PdfRun(s, |s| - 1)] + ".pdf" + "\n"
  {
    var e := |s| - 1;
    var n := PdfRun(s, e);
    assert CollapsePdfRun(s) == s[..e - 4 * n] + ".pdf" + s[e..];
    assert s[e..] == [s[e]] == "\n";
  }

  /** A name that ends with a newline gets `.pdf` appended, and nothing ending in `.pdf` comes before it. */
  lemma AppendAfterNewline(t: string)
    requires t != [] && t[|t| - 1] == '\n'
    ensures FixPdfSuffixTail(t) == t + ".pdf" && SinglePdfSuffix(t + ".pdf")
  {
    if PdfEndsAt(t, |t|) {
      PdfEndIsNotNewline(t);
    }
    var r := t + ".pdf";
    assert r[|r| - 4..] == ".pdf";
    if |t| >= 4 {
      assert r[..|t|] == t[..|t|];
      PdfEndsAtPrefix(t, r, |t|);
    }
  }

  /** A run of `.pdf` before a final newline becomes one `.pdf`, the newline stays, and `.pdf` is appended after it. */
  lemma FixPdfSuffixBeforeNewline(s: string)
    requires SubjectEnd(s) == |s| - 1 && PdfRun(s, |s| - 1) > 0
    ensures FixPdfSuffix(s) == s[..|s| - 1 - 4 * PdfRun(s, |s| - 1)] + ".pdf" + "\n" + ".pdf"
    ensures SinglePdfSuffix(FixPdfSuffix(s))
  {
    CollapseBeforeNewline(s);
    AppendAfterNewline(CollapsePdfRun(s));
  }

  /** The chosen name ends with a lower-case `.pdf`, and no second `.pdf` of any case comes right before it. */
  lemma FixPdfSuffixShape(s: string)
    ensures SinglePdfSuffix(FixPdfSuffix(s))
  {
    var e := SubjectEnd(s);
    if PdfRun(s, e) == 0 {
      FixPdfSuffixAppends(s);
    } else if e == |s| {
      FixPdfSuffixCollapses(s);
    } else {
      FixPdfSuffixBeforeNewline(s);
    }
  }

  /** A name already of that shape is left as it is. */
  lemma FixPdfSuffixOfSingle(r: string)
    requires SinglePdfSuffix(r)
    ensures FixPdfSuffix(r) == r
  {
    LiteralPdfEnding(r);
    PdfEndIsNotNewline(r);
    assert SubjectEnd(r) == |r|;
    assert PdfRun(r, |r|) == 1;
    assert r[..|r| - 4] + ".pdf" == r;
    assert r[|r|..] == [];
    assert CollapsePdfRun(r) == r;
  }

  lemma FixPdfSuffixIdempotent(s: string)
    ensures FixPdfSuffix(FixPdfSuffix(s)) == FixPdfSuffix(s)
  {
    FixPdfSuffixShape(s);
    FixPdfSuffixOfSingle(FixPdfSuffix(s));
  }

  /** `download_cbr_pdf`'s file name. */
  function DownloadFilename(url: string, disposition: Option<string>, finalUrl: string, unquote: string -> string): (r: string)
    ensures SinglePdfSuffix(r)
    ensures FixPdfSuffix(r) == r
  {
    var raw := RawFilename(url, disposition, finalUrl, unquote);
    FixPdfSuffixShape(raw);
    FixPdfSuffixIdempotent(raw);
    FixPdfSuffix(raw)
  }

  // ---------------------------------------------------------------- regulatory-acts feed

  /** The dictionary `get_latest_cbr_docs` builds for an item it keeps. */
  datatype CbrDocument = CbrDocument(title: string, link: string, guid: string, description: string,
                                     pubDate: string, pubDateParsed: string)

  /** `x.text.strip() if x is not None else ''`: `None` where `.strip()` meets an empty element and raises. */
  function OptionalText(item: Item, tag: string): (r: Option<string>)
    ensures tag !in item ==> r == Some("")
    ensures tag in item ==> (r.None? <==> item[tag].None?)
    ensures tag in item && item[tag].Some? ==> r == Some(Strip(item[tag].value))
    ensures r.Some? ==> IsStripped(r.value)
  {
    if tag !in item then Some("")
    else if item[tag].None? then None
    else
      StripIsStripped(item[tag].value);
      Some(Strip(item[tag].value))
  }

  /**
   * One pass of the loop of `get_latest_cbr_docs`: `None` when the item is skipped (a required
   * child missing, a text missing where `.strip()` is called, an unparseable date, or a date
   * not strictly later than `start`).
   */
  function CbrItem(item: Item, start: DateTime): (r: Option<CbrDocument>)
    ensures r.Some? ==> "title" in item && "link" in item && "pubDate" in item
                        && item["title"].Some? && item["link"].Some? && item["pubDate"].Some?
    ensures r.Some? ==> r.value.title == Strip(item["title"].value) && r.value.link == Strip(item["link"].value)
                        && r.value.pubDate == Strip(item["pubDate"].value)
    ensures r.Some? && "guid" in item ==> item["guid"].Some? && r.value.guid == Strip(item["guid"].value)
    ensures r.Some? && "description" in item ==> item["description"].Some? && r.value.description == Strip(item["description"].value)
    ensures r.Some? ==> var d := ParseRssDate(r.value.pubDate);
                        d.Some? && Before(start, d.value) && r.value.pubDateParsed == FormatIso(d.value)
    ensures r.Some? ==> IsStripped(r.value.title) && IsStripped(r.value.link) && IsStripped(r.value.pubDate)
                        && IsStripped(r.value.guid) && IsStripped(r.value.description)
    ensures r.Some? && "guid" !in item ==> r.value.guid == ""
    ensures r.Some? && "description" !in item ==> r.value.description == ""
  {
    if "title" !in item || "link" !in item || "pubDate" !in item then None
    else
      var pubText :- item["pubDate"];
      var pubDate := Strip(pubText);
      var dt :- ParseRssDate(pubDate);
      if !Before(start, dt) then None
      else
        var title :- item["title"];
        var link :- item["link"];
        var guid :- OptionalText(item, "guid");
        var description :- OptionalText(item, "description");
        StripIsStripped(title);
        StripIsStripped(link);
        StripIsStripped(pubText);
        Some(CbrDocument(Strip(title), Strip(link), guid, description, pubDate, FormatIso(dt)))
  }

  /** An item whose title, link and date texts are all there is kept exactly when its date parses and is later than `start`. */
  lemma CbrItemKeptIff(item: Item, start: DateTime)
    requires "title" in item && "link" in item && "pubDate" in item
    requires item["title"].Some? && item["link"].Some? && item["pubDate"].Some?
    requires "guid" !in item || item["guid"].Some?
    requires "description" !in item || item["description"].Some?
    ensures var d := ParseRssDate(Strip(item["pubDate"].value));
            CbrItem(item, start).Some? <==> d.Some? && Before(start, d.value)
  {
  }

  /** A publication time equal to the cutoff is not kept: the comparison is strict. */
  lemma CbrCutoffIsStrict(item: Item, start: DateTime)
    requires "pubDate" in item && item["pubDate"].Some?
    requires ParseRssDate(Strip(item["pubDate"].value)) == Some(start)
    ensures CbrItem(item, start).None?
  {
    BeforeIsStrictTotalOrder(start, start, start);
  }

  function KeepCbrItem(start: DateTime): Item -> Option<CbrDocument>
  {
    item => CbrItem(item, start)
  }

  /** What `get_latest_cbr_docs` returns for the items of a feed that was fetched and parsed. */
  function CbrDocuments(items: seq<Item>, start: DateTime): seq<CbrDocument>
  {
    FilterMap(items, KeepCbrItem(start))
  }

  /** `get_latest_cbr_docs`: the kept items in feed order; fetch and parse errors are raised again. */
  method GetLatestCbrDocs(feed: Result<seq<Item>, FeedError>, start: DateTime)
    returns (r: Result<seq<CbrDocument>, FeedError>)
    ensures feed.Failure? ==> r == Failure(feed.error)
    ensures feed.Success? ==> r == Success(CbrDocuments(feed.value, start))
  {
    if feed.Failure? {
      return Failure(feed.error);
    }
    var items := feed.value;
    var documents: seq<CbrDocument> := [];
    for i := 0 to |items|
      invariant documents == FilterMap(items[..i], KeepCbrItem(start))
    {
      var document := CbrItem(items[i], start);
      assert items[..i + 1] == items[..i] + [items[i]];
      FilterMapSnoc(items[..i], items[i], KeepCbrItem(start));
      if document.Some? {
        documents := documents + [document.value];
      }
    }
    assert items[..|items|] == items;
    r := Success(documents);
  }

  /** Every returned document comes from a feed item and was published strictly after `start`. */
  lemma CbrDocumentsAreLater(items: seq<Item>, start: DateTime, d: CbrDocument)
    requires d in CbrDocuments(items, start)
    ensures exists i :: 0 <= i < |items| && CbrItem(items[i], start) == Some(d)
    ensures var p := ParseRssDate(d.pubDate); p.Some? && Before(start, p.value)
  {
    FilterMapMember(items, KeepCbrItem(start), d);
  }

  // ---------------------------------------------------------------- draft-acts feed

  /** The dictionary `get_central_bank_draft_regulatory_acts` builds for every item. */
  datatype DraftAct = DraftAct(title: Option<string>, link: Option<string>, guid: Option<string>,
                               description: Option<string>, pubDate: Option<string>, category: Option<string>)

  /** `v` is what `el.text if el is not None else None` gives for the child `tag`. */
  predicate TextOfChild(item: Item, tag: string, v: Option<string>)
  {
    (tag in item ==> v == item[tag]) && (tag !in item ==> v.None?)
  }

  /** Each field is the child's text, `None` for a missing child or an empty one. */
  function DraftActOf(item: Item): (r: DraftAct)
    ensures TextOfChild(item, "title", r.title) && TextOfChild(item, "link", r.link)
    ensures TextOfChild(item, "guid", r.guid) && TextOfChild(item, "description", r.description)
    ensures TextOfChild(item, "pubDate", r.pubDate) && TextOfChild(item, "category", r.category)
  {
    DraftAct(ChildText(item, "title"), ChildText(item, "link"), ChildText(item, "guid"),
             ChildText(item, "description"), ChildText(item, "pubDate"), ChildText(item, "category"))
  }

  /** `get_central_bank_draft_regulatory_acts`: one record per item, in order; `None` when fetching or parsing fails. */
  method GetCentralBankDraftRegulatoryActs(feed: Result<seq<Item>, FeedError>) returns (r: Option<seq<DraftAct>>)
    ensures r.None? <==> feed.Failure?
    ensures r.Some? ==> |r.value| == |feed.value|
                        && forall i :: 0 <= i < |feed.value| ==> r.value[i] == DraftActOf(feed.value[i])
  {
    if feed.Failure? {
      return None;
    }
    var items := feed.value;
    var acts: seq<DraftAct> := [];
    for i := 0 to |items|
      invariant |acts| == i && forall j :: 0 <= j < i ==> acts[j] == DraftActOf(items[j])
    {
      acts := acts + [DraftActOf(items[i])];
    }
    r := Some(acts);
  }
}

/** Spreadsheet-identifier extraction from a sheet URL:
    `re.search(r'/spreadsheets/d/([a-zA-Z0-9-_]+)', url).group(1)` and the
    three outcomes of the URL-validation step around it. */
module SheetId {
  import opened Strings

  const Marker: string := "/spreadsheets/d/"

  /** The pattern matches at p: the marker, then at least one id character. */
  predicate PatternAt(url: string, p: nat) {
    p + |Marker| < |url| && url[p..p + |Marker|] == Marker && InClass(url[p + |Marker|], IdChar)
  }

  /** `re.search`: the left-most position at or after `from` where the
      pattern matches. */
  function SearchFrom(url: string, from: nat): (r: Option<nat>)
    ensures r.Some? ==> from <= r.value && PatternAt(url, r.value)
    ensures r.Some? ==> forall q: nat :: from <= q < r.value ==> !PatternAt(url, q)
    ensures r.None? ==> forall q: nat :: from <= q ==> !PatternAt(url, q)
    decreases |url| - from
  {
    if from + |Marker| >= |url| then None
    else if PatternAt(url, from) then Some(from)
    else SearchFrom(url, from + 1)
  }

  /** The id captured by group 1: the greedy run of id characters after the
      left-most marker, or nothing when the pattern does not match. */
  function ParseSheetId(url: string): (r: Option<string>)
    ensures r.None? <==> forall q: nat :: !PatternAt(url, q)
    ensures r.Some? ==> |r.value| > 0 && forall c <- r.value :: InClass(c, IdChar)
  {
    match SearchFrom(url, 0)
    case None => None
    case Some(p) =>
      var start := p + |Marker|;
      var e := RunEnd(url, start, IdChar);
      RunEndCovers(url, start, start + 1, IdChar);
      assert forall c <- url[start..e] :: exists t :: start <= t < e && c == url[t];
      Some(url[start..e])
  }

  /** The id the regular expression captures when it matches first at p. */
  ghost predicate CapturedAt(url: string, p: nat, id: string) {
    && PatternAt(url, p)
    && (forall q: nat :: q < p ==> !PatternAt(url, q))
    && exists e: nat :: p + |Marker| < e <= |url|
         && id == url[p + |Marker|..e]
         && AllIn(url, p + |Marker|, e, IdChar)
         && (e == |url| || !InClass(url[e], IdChar))
  }

  /** The id ParseSheetId finds is the one group 1 captures: the maximal
      id-character run after the left-most occurrence of the pattern. */
  lemma ParseSheetIdSpec(url: string)
    ensures ParseSheetId(url).Some? ==> exists p: nat :: CapturedAt(url, p, ParseSheetId(url).value)
  {
    match SearchFrom(url, 0)
    case None =>
    case Some(p) =>
      var start := p + |Marker|;
      var e := RunEnd(url, start, IdChar);
      RunEndCovers(url, start, start + 1, IdChar);
      var id := url[start..e];
      assert CapturedAt(url, p, id);
      assert forall c <- id :: exists t :: start <= t < e && c == url[t];
  }

  /** What the URL-validation step reports. */
  datatype UrlOutcome =
    | UrlMissing                 // "Please enter a Google Sheets URL."
    | UrlInvalid                 // "Invalid Google Sheets URL format. ..."
    | UrlValid(sheetId: string)  // the session's sheet id is set

  /** The validation step: an empty URL is refused before the pattern is
      tried; otherwise the id is set exactly when the pattern matches. */
  function ValidateSheetUrl(url: string): (r: UrlOutcome)
    ensures r.UrlMissing? <==> url == ""
    ensures r.UrlValid? ==> ParseSheetId(url) == Some(r.sheetId)
    ensures r.UrlInvalid? <==> url != "" && ParseSheetId(url).None?
  {
    if url == "" then UrlMissing
    else match ParseSheetId(url)
      case None => UrlInvalid
      case Some(id) => UrlValid(id)
  }

  /** Positions before `until` where the pattern cannot match are skipped. */
  lemma {:induction false} SearchSkips(url: string, from: nat, until: nat)
    requires from <= until
    requires forall q: nat :: from <= q < until ==> !PatternAt(url, q)
    ensures SearchFrom(url, from) == SearchFrom(url, until)
    decreases until - from
  {
    if from < until {
      SearchSkips(url, from + 1, until);
    }
  }
}

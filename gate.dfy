/** The change gate (scripts/update.js, lines 59-77): the run is skipped
    when the page's last-updated date is not newer than the stored one.
    Date parsing (`new Date(text)`, locale dependent) is a parameter `parse`
    giving a timestamp, or None for an invalid date. */
module Gate {
  import opened Values
  import opened Strings

  /** The page's date: an empty text is not parsed at all. */
  function PageDate(pageDateText: string, parse: string -> Option<int>): Option<int> {
    if pageDateText == "" then None else parse(pageDateText)
  }

  /** The stored date: nothing without a marker file, else its trimmed
      contents parsed. */
  function LastKnownDate(stored: Option<string>, parse: string -> Option<int>): Option<int> {
    match stored
    case None => None
    case Some(text) => parse(Trim(text))
  }

  /** The skip condition on the two parsed dates. */
  predicate Skips(pageDate: Option<int>, lastKnownDate: Option<int>) {
    pageDate.Some? && lastKnownDate.Some? && pageDate.value <= lastKnownDate.value
  }

  /** The gate as the script runs it: parse the page date; if that fails,
      proceed; otherwise read the stored date and stop when the page date
      is not later. It skips exactly when the page date parses, a marker
      exists and parses, and the page timestamp is at most the stored one. */
  method ChangeGate(pageDateText: string, stored: Option<string>, parse: string -> Option<int>)
    returns (skip: bool, pageDate: Option<int>)
    ensures pageDate == PageDate(pageDateText, parse)
    ensures pageDateText == "" ==> pageDate == None
    ensures skip <==>
      && pageDateText != "" && parse(pageDateText).Some?
      && stored.Some? && parse(Trim(stored.value)).Some?
      && parse(pageDateText).value <= parse(Trim(stored.value)).value
    ensures skip == Skips(pageDate, LastKnownDate(stored, parse))
  {
    pageDate := if pageDateText != "" then parse(pageDateText) else None;
    if pageDate.None? {
      return false, pageDate;
    }
    var lastKnownDate: Option<int> := None;
    if stored.Some? {
      lastKnownDate := parse(Trim(stored.value));
    }
    if lastKnownDate.Some? && pageDate.value <= lastKnownDate.value {
      return true, pageDate;
    }
    return false, pageDate;
  }

  /** Once a page text has been stored as the marker, the same page text
      is gated out: the marker read back and trimmed is the same text, so
      it parses to the same timestamp. */
  lemma SkipsOnOwnMarker(pageDateText: string, parse: string -> Option<int>)
    requires IsTrimmed(pageDateText)
    requires PageDate(pageDateText, parse).Some?
    ensures Skips(PageDate(pageDateText, parse), LastKnownDate(Some(pageDateText), parse))
  {
    assert Trim(pageDateText) == pageDateText;
  }
}

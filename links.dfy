/** Resolution of the spreadsheet's download link found on the page
    (scripts/update.js, lines 16 and 83-90). */
module Links {
  import opened Values
  import opened Strings

  /** The site origin that relative links are put behind. */
  const BaseUrl: string := "https://postalpro.usps.com"

  /** A link counts as present when `href` is a non-empty string: a missing
      attribute and an empty one are both falsy. */
  predicate LinkPresent(link: Option<string>) {
    link.Some? && link.value != ""
  }

  /** The URL the spreadsheet is downloaded from: a link starting with
      "http" as it is, any other link with the origin in front of it. */
  function ResolveLink(link: string): (url: string)
    ensures StartsWith(url, "http")
    ensures |link| <= |url| && url[|url| - |link|..] == link
    ensures StartsWith(link, "http") ==> url == link
    ensures !StartsWith(link, "http") ==> url == BaseUrl + link
  {
    if StartsWith(link, "http") then link else BaseUrl + link
  }

  /** Resolving is a fixed point: a resolved URL resolves to itself. */
  lemma ResolveLinkIdempotent(link: string)
    ensures ResolveLink(ResolveLink(link)) == ResolveLink(link)
  {
  }

  /** The site's own relative link becomes the absolute URL on the site. */
  lemma ResolveRelativeExample()
    ensures ResolveLink("/x/ZIP_Locale_Detail.xls") == BaseUrl + "/x/ZIP_Locale_Detail.xls"
  {
    assert !StartsWith("/x/ZIP_Locale_Detail.xls", "http") by {
      assert "/x/ZIP_Locale_Detail.xls"[0] == '/';
    }
  }

  /** An absolute link is passed through unchanged. */
  lemma ResolveAbsoluteExample()
    ensures ResolveLink("http://example.org/a.xls") == "http://example.org/a.xls"
  {
    var link := "http://example.org/a.xls";
    assert link[..4] == "http" by {
      assert link[0] == 'h' && link[1] == 't' && link[2] == 't' && link[3] == 'p';
    }
  }

  /** The origin is joined to the link with no separator, so a relative link
      without a leading '/' runs into the host name: no '/' follows the host. */
  lemma ResolveJoinsWithoutSeparator()
    ensures ResolveLink("files/ZIP_Locale_Detail.xls") == BaseUrl + "files/ZIP_Locale_Detail.xls"
    ensures ResolveLink("files/ZIP_Locale_Detail.xls")[|BaseUrl|] == 'f'
  {
    assert !StartsWith("files/ZIP_Locale_Detail.xls", "http") by {
      assert "files/ZIP_Locale_Detail.xls"[0] == 'f';
    }
  }
}

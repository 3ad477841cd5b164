/**
 * The award test and the link collection of the cleaned-up scraper
 * (scrape_readytensor_clean.py): which publication links are scraped, and
 * which scraped records count as award records.
 */
module ScrapeClean {
  import opened Wrappers
  import opened Text
  import opened Lists

  /** AWARD_KEYWORDS, with the generic "winner of", "award" and "challenge". */
  const Keywords: seq<string> := [
    "best overall project",
    "best technical implementation",
    "most innovative project",
    "most engaging presentation",
    "outstanding solution implementation",
    "most promising innovation",
    "best ai tool innovation",
    "distinguished applied solution showcase",
    "distinguished technical deep-dive",
    "distinguished social impact innovation",
    "best creative ai project",
    "ai research excellence",
    "distinguished implementation guide",
    "excellence in educational content",
    "exceptional dataset contribution",
    "winner of",
    "award",
    "challenge"
  ]

  /** `matches_award(text)`: a keyword occurs in the lower-cased text. */
  function MatchesAward(text: string): (b: bool)
    ensures b <==> exists k :: k in Keywords && Contains(Lower(text), k)
  {
    ContainsAny(Lower(text), Keywords)
  }

  /** "winner of", "award" and "challenge" make any text that holds them match. */
  lemma MatchesGeneric(text: string, k: string)
    requires k == "winner of" || k == "award" || k == "challenge"
    requires Contains(Lower(text), k)
    ensures MatchesAward(text)
  {
    assert k == Keywords[15] || k == Keywords[16] || k == Keywords[17];
  }

  /** `(title or "") + " " + (publication_description or "")`, the text the award test reads. */
  function AwardText(title: Option<string>, description: Option<string>): string {
    title.GetOr("") + " " + description.GetOr("")
  }

  /** A record is kept as an award record when its title and description text matches. */
  predicate IsAwardRecord(title: Option<string>, description: Option<string>) {
    MatchesAward(AwardText(title, description))
  }

  /** For any keyword list, a keyword in the title alone is enough. */
  lemma TitleSuffices(title: string, description: Option<string>, k: string, keys: seq<string>)
    requires k in keys && Contains(Lower(title), k)
    ensures ContainsAny(Lower(AwardText(Some(title), description)), keys)
  {
    LowerAppend(title, " " + description.GetOr(""));
    assert AwardText(Some(title), description) == title + (" " + description.GetOr(""));
    ContainsAppendRight(Lower(title), Lower(" " + description.GetOr("")), k);
  }

  /** For any keyword list, a keyword in the description alone is enough. */
  lemma DescriptionSuffices(title: Option<string>, description: string, k: string, keys: seq<string>)
    requires k in keys && Contains(Lower(description), k)
    ensures ContainsAny(Lower(AwardText(title, Some(description))), keys)
  {
    LowerAppend(title.GetOr("") + " ", description);
    ContainsAppendLeft(Lower(title.GetOr("") + " "), Lower(description), k);
  }

  // ---------------------------------------------------------------------
  // Collecting publication links
  // ---------------------------------------------------------------------

  const Host: string := "https://app.readytensor.ai"

  /**
   * The URL a card's `href` contributes: a present, non-empty link
   * containing "/publications/" and not ending in "/create", with the host
   * put in front of a site-relative link.
   */
  function CardUrl(href: Option<string>): (r: Option<string>)
    ensures r.Some? <==> href.Some? && href.value != [] && Contains(href.value, "/publications/") && !EndsWith(href.value, "/create")
    ensures r.Some? ==> Contains(r.value, "/publications/") && !EndsWith(r.value, "/create")
    ensures r.Some? ==> if StartsWith(href.value, "/") then r.value == Host + href.value else r.value == href.value
  {
    match href
    case None => None
    case Some(h) =>
      if h != [] && Contains(h, "/publications/") && !EndsWith(h, "/create") then
        if StartsWith(h, "/") then
          HostedUrl(h);
          Some(Host + h)
        else Some(h)
      else None
  }

  /** The host in front keeps the path and the ending. */
  lemma HostedUrl(h: string)
    requires Contains(h, "/publications/") && !EndsWith(h, "/create")
    ensures Contains(Host + h, "/publications/") && !EndsWith(Host + h, "/create")
  {
    ContainsAppendLeft(Host, h, "/publications/");
    var i := ContainsWitness(h, "/publications/");
    assert |h| >= 14;
    assert (Host + h)[|Host + h| - 7..] == h[|h| - 7..];
  }

  /** What the link loop leaves in `project_urls`. */
  function CollectedUrls(hrefs: seq<Option<string>>): seq<string> {
    AddNew([], Map(hrefs, CardUrl))
  }

  /** The loop over the cards' `href` attributes, appending each new URL. */
  method CollectUrls(hrefs: seq<Option<string>>) returns (urls: seq<string>)
    ensures urls == CollectedUrls(hrefs)
  {
    urls := AddAll([], hrefs, CardUrl);
  }

  /**
   * The collected URLs are distinct, in the order the cards first give them,
   * each a publication page that is not the "create" page.
   */
  lemma CollectedUrlsValid(hrefs: seq<Option<string>>)
    ensures var r := CollectedUrls(hrefs);
      && NoDuplicates(r)
      && InFirstOccurrenceOrder(r, Present(Map(hrefs, CardUrl)))
      && forall i :: 0 <= i < |r| ==> Contains(r[i], "/publications/") && !EndsWith(r[i], "/create")
  {
    var xs := Map(hrefs, CardUrl);
    var r := AddNew([], xs);
    AddNewDedup(xs);
    DedupOrder(Present(xs));
    forall i | 0 <= i < |r| ensures Contains(r[i], "/publications/") && !EndsWith(r[i], "/create") {
      var j :| 0 <= j < |xs| && xs[j] == Some(r[i]);
      assert CardUrl(hrefs[j]) == Some(r[i]);
    }
  }

  /** A URL is collected exactly when some card yields it. */
  lemma CollectedUrlsMembers(hrefs: seq<Option<string>>, u: string)
    ensures u in CollectedUrls(hrefs) <==> exists i :: 0 <= i < |hrefs| && CardUrl(hrefs[i]) == Some(u)
  {
    var xs := Map(hrefs, CardUrl);
    var r := AddNew([], xs);
    if u in r {
      var k :| 0 <= k < |r| && r[k] == u;
      var j :| 0 <= j < |xs| && xs[j] == Some(r[k]);
      assert CardUrl(hrefs[j]) == Some(u);
    }
    if exists i :: 0 <= i < |hrefs| && CardUrl(hrefs[i]) == Some(u) {
      var i :| 0 <= i < |hrefs| && CardUrl(hrefs[i]) == Some(u);
      assert xs[i] == Some(u);
    }
  }
}

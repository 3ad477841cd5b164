/**
 * The award test of the BeautifulSoup scraper (scrape_readytensor_awards.py):
 * a record matches when a keyword occurs anywhere in the lower-cased text
 * made of its description, its tags and the page's HTML, joined by spaces.
 */
module ScrapeAwards {
  import opened Wrappers
  import opened Text

  /** AWARD_KEYWORDS, generic words such as "award", "excellence" and "outstanding" included. */
  const Keywords: seq<string> := [
    "winner of",
    "awarded",
    "award",
    "prize",
    "trophy",
    "recognition",
    "innovation challenge",
    "best overall project",
    "best technical implementation",
    "most innovative project",
    "most engaging presentation",
    "outstanding solution implementation",
    "most promising innovation",
    "best ai tool innovation",
    "distinguished applied solution showcase",
    "distinguished technical deep-dive",
    "distinguished social impact innovation",
    "best creative ai project",
    "ai research excellence",
    "distinguished implementation guide",
    "excellence in educational content",
    "exceptional dataset contribution",
    "excellence",
    "outstanding",
    "distinguished"
  ]

  /**
   * The fields of a scraped record the test reads: `description` is None
   * when missing or null, and `tags` is empty when missing.
   */
  datatype Record = Record(description: Option<string>, tags: seq<string>)

  /** `" ".join([description or "", " ".join(tags), full_html]).lower()`. */
  function Combined(rec: Record, html: string): string {
    Lower(rec.description.GetOr("") + " " + Join(rec.tags, " ") + " " + html)
  }

  /** `matches_award(record, full_html)`. */
  function MatchesAward(rec: Record, html: string): (b: bool)
    ensures b <==> exists k :: k in Keywords && Contains(Combined(rec, html), k)
  {
    ContainsAny(Combined(rec, html), Keywords)
  }

  /** The combined text is the lower-cased parts joined by spaces. */
  lemma CombinedParts(rec: Record, html: string)
    ensures Combined(rec, html) ==
      Lower(rec.description.GetOr("")) + " " + Lower(Join(rec.tags, " ")) + " " + Lower(html)
  {
    LowerSpaced(rec.description.GetOr(""), Join(rec.tags, " "), html);
  }

  // The lemmas below hold for any keyword list `keys`, AWARD_KEYWORDS among them.

  /** More HTML after a match never undoes it. */
  lemma MoreHtmlKeepsMatch(rec: Record, html: string, more: string, keys: seq<string>)
    requires ContainsAny(Combined(rec, html), keys)
    ensures ContainsAny(Combined(rec, html + more), keys)
  {
    CombinedParts(rec, html);
    CombinedParts(rec, html + more);
    LowerAppend(html, more);
    assert Combined(rec, html + more) == Combined(rec, html) + Lower(more);
    ContainsAnyRight(Combined(rec, html), Lower(more), keys);
  }

  /** A keyword in the description alone makes the record match. */
  lemma DescriptionSuffices(rec: Record, html: string, k: string, keys: seq<string>)
    requires k in keys && rec.description.Some? && Contains(Lower(rec.description.value), k)
    ensures ContainsAny(Combined(rec, html), keys)
  {
    CombinedParts(rec, html);
    var d := Lower(rec.description.value);
    var rest := " " + Lower(Join(rec.tags, " ")) + " " + Lower(html);
    assert Combined(rec, html) == d + rest;
    ContainsAppendRight(d, rest, k);
  }

  /** A keyword inside one tag makes the record match. */
  lemma TagSuffices(rec: Record, html: string, i: nat, k: string, keys: seq<string>)
    requires k in keys && i < |rec.tags| && Contains(Lower(rec.tags[i]), k)
    ensures ContainsAny(Combined(rec, html), keys)
  {
    CombinedParts(rec, html);
    var d := Lower(rec.description.GetOr(""));
    var t := Lower(Join(rec.tags, " "));
    JoinContains(rec.tags, " ", i);
    ContainsLowerWithin(Join(rec.tags, " "), rec.tags[i], k);
    assert Combined(rec, html) == (d + " ") + t + (" " + Lower(html));
    ContainsAppendLeft(d + " ", t, k);
    ContainsAppendRight((d + " ") + t, " " + Lower(html), k);
  }

  /** A keyword in the HTML alone makes the record match. */
  lemma HtmlSuffices(rec: Record, html: string, k: string, keys: seq<string>)
    requires k in keys && Contains(Lower(html), k)
    ensures ContainsAny(Combined(rec, html), keys)
  {
    CombinedParts(rec, html);
    var pre := Lower(rec.description.GetOr("")) + " " + Lower(Join(rec.tags, " ")) + " ";
    ContainsAppendLeft(pre, Lower(html), k);
  }

  /** A generic word anywhere in the combined text is enough to match. */
  lemma MatchesGeneric(rec: Record, html: string, k: string)
    requires k == "award" || k == "excellence" || k == "outstanding" || k == "distinguished"
    requires Contains(Combined(rec, html), k)
    ensures MatchesAward(rec, html)
  {
    assert k == Keywords[2] || k == Keywords[22] || k == Keywords[23] || k == Keywords[24];
  }

  /**
   * Adding a tag can turn a match into a non-match: a keyword may span the
   * spaces between parts. With the tag "winner" and the HTML "of", the
   * combined text " winner of" holds "winner of"; one more tag "x" puts it
   * between the two words, and no keyword is left.
   */
  lemma MoreTagsCanUndoMatch()
    ensures MatchesAward(Record(Some(""), ["winner"]), "of")
    ensures !MatchesAward(Record(Some(""), ["winner", "x"]), "of")
  {
    WinnerOfCombined(Combined(Record(Some(""), ["winner"]), "of"));
    WinnerXOfCombined(Combined(Record(Some(""), ["winner", "x"]), "of"));
  }

  lemma WinnerOfCombined(c: string)
    requires c == Combined(Record(Some(""), ["winner"]), "of")
    ensures ContainsAny(c, Keywords)
  {
    assert c == " winner of";
    assert c[1..10] == Keywords[0];
    ContainsAt(c, Keywords[0], 1);
  }

  lemma WinnerXOfCombined(c: string)
    requires c == Combined(Record(Some(""), ["winner", "x"]), "of")
    ensures !ContainsAny(c, Keywords)
  {
    assert Join(["winner", "x"], " ") == "winner x";
    assert c == " winner x of";
    WinnerXOfNoKey(c);
  }

  /** Letters that " winner x of" lacks and that every keyword but "winner of" holds. */
  const Absent: set<char> := {'a', 'p', 't', 'c', 'v', 'b', 'm', 'u', 'd'}

  /** Where keyword `n` holds a letter of `Absent` (unused for "winner of"). */
  const AbsentAt: seq<nat> := [0, 0, 0, 0, 0, 2, 4, 0, 0, 0, 0, 1, 0, 0, 0, 0, 0, 0, 0, 0, 2, 2, 2, 1, 0]

  lemma WinnerXOfNoKey(c: string)
    requires c == " winner x of"
    ensures !ContainsAny(c, Keywords)
  {
    assert forall j :: 0 <= j < |c| ==> c[j] !in Absent;
    forall k | k in Keywords ensures !Contains(c, k) {
      var n :| 0 <= n < |Keywords| && Keywords[n] == k;
      if n == 0 {
        WinnerOfAbsent(c);
      } else {
        KeyLacks(n);
        AbsentKey(c, k, AbsentAt[n]);
      }
    }
  }

  lemma KeyLacks(n: nat)
    requires 1 <= n < |Keywords|
    ensures AbsentAt[n] < |Keywords[n]| && Keywords[n][AbsentAt[n]] in Absent
  {
  }

  /** "winner of" is not in " winner x of": its only 'w' is followed by "inner x". */
  lemma WinnerOfAbsent(c: string)
    requires c == " winner x of"
    ensures !Contains(c, Keywords[0])
  {
    var k := Keywords[0];
    forall j: nat ensures !OccursAt(c, k, j) {
      if j + |k| <= |c| {
        if j == 1 {
          assert c[j..j + |k|][7] == 'x';
        } else {
          assert c[j..j + |k|][0] == c[j] != 'w';
        }
      }
    }
  }
}

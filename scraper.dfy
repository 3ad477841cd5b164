/**
 * The award vocabulary of the Playwright scraper (scraper.py): the keyword
 * test, the normaliser that maps a phrase onto a vocabulary entry, and the
 * extractor that gathers accepted phrases from a page.
 */
module Scraper {
  import opened Wrappers
  import opened Text
  import opened Patterns
  import opened Lists

  /** AWARD_KEYWORDS, in list order. */
  const Keywords: seq<string> := [
    "best overall project",
    "best technical implementation",
    "most innovative project",
    "most engaging presentation",
    "outstanding solution implementation",
    "most promising innovation",
    "best ai tool innovation",
    "distinguished applied solution showcase",
    "distinguished technical deep-dive",
    "distinguished social impact innovation",
    "best creative ai project",
    "ai research excellence",
    "distinguished implementation guide",
    "excellence in educational content",
    "exceptional dataset contribution",
    "the imagenet competition in 2012"
  ]

  /** The alternatives of `\b(winner of|award(ed)?|recipient of|at the|for|in|with)\b`, in the order the regex tries them. */
  const Fillers: seq<string> := ["winner of", "awarded", "award", "recipient of", "at the", "for", "in", "with"]

  /** The alternatives of the stop-term search. */
  const StopTerms: seq<string> := [
    "it", "this", "because", "from", "classification", "usecases",
    "trending", "topics", "way", "team", "presentation"
  ]

  /** The CSS selectors whose element texts are candidates, in loop order. */
  const Selectors: seq<string> := ["div.awards", "span.badge", "div[class*='award']", "li[class*='award']"]

  const Quotes: set<char> := {'\'', '`'}

  /** `matches_award(text)`: a keyword occurs in the lower-cased text; empty or missing text never matches. */
  function MatchesAward(text: Option<string>): (b: bool)
    ensures b <==> text.Some? && text.value != [] && exists k :: k in Keywords && Contains(Lower(text.value), k)
  {
    text.Some? && text.value != [] && ContainsAny(Lower(text.value), Keywords)
  }

  /** The test ignores case. */
  lemma MatchesAwardIgnoresCase(t: string)
    ensures MatchesAward(Some(Lower(t))) == MatchesAward(Some(t))
  {
    LowerIdempotent(t);
  }

  /** Text that matches still matches with more text after it. */
  lemma MatchesAwardExtend(t: string, u: string)
    requires MatchesAward(Some(t))
    ensures MatchesAward(Some(t + u))
  {
    var k :| k in Keywords && Contains(Lower(t), k);
    LowerAppend(t, u);
    ContainsAppendRight(Lower(t), Lower(u), k);
  }

  /**
   * The cleaning chain: strip and lower-case, collapse whitespace runs,
   * delete quotes and backticks, delete the filler words, strip again.
   */
  function Clean(phrase: string): (c: string)
    ensures NoUpper(c) && Trimmed(c) && |c| <= |phrase|
    ensures forall i :: 0 <= i < |c| ==> c[i] !in Quotes
  {
    var a := Lower(Strip(phrase));
    var b := CollapseSpaces(a);
    var d := Without(b, Quotes);
    var e := RemoveWords(d, Fillers);
    CleanFacts(a, b, d, e);
    Strip(e)
  }

  lemma CleanFacts(a: string, b: string, d: string, e: string)
    requires NoUpper(a) && b == CollapseSpaces(a) && d == Without(b, Quotes) && e == RemoveWords(d, Fillers)
    ensures NoUpper(Strip(e)) && |Strip(e)| <= |a|
    ensures forall i :: 0 <= i < |Strip(e)| ==> Strip(e)[i] !in Quotes
  {
    CollapseNoUpper(a);
    CharsFromNoUpper(d, b);
    CharsFromNoUpper(e, d);
    var c := Strip(e);
    CharsFromNoUpper(c, e);
    forall i | 0 <= i < |c| ensures c[i] !in Quotes {
      var j :| 0 <= j < |e| && e[j] == c[i];
      var k :| 0 <= k < |d| && d[k] == e[j];
    }
  }

  lemma CleanIgnoresCase(phrase: string)
    ensures Clean(Lower(phrase)) == Clean(phrase)
  {
    StripLower(phrase);
    LowerIdempotent(Strip(phrase));
  }

  /** The rejection rules applied to a cleaned phrase. */
  predicate Rejected(c: string) {
    |c| < 5 || WordSearch(c, StopTerms) || HasDigit(c) || WordCount(c) > 5
  }

  /** A keyword is related to a phrase when either contains the other. */
  predicate Related(c: string, k: string) {
    Contains(c, k) || Contains(k, c)
  }

  /** `keys[j]` is related to `c` and no earlier entry is. */
  predicate FirstRelatedAt(c: string, keys: seq<string>, j: nat) {
    j < |keys| && Related(c, keys[j]) && forall i :: 0 <= i < j ==> !Related(c, keys[i])
  }

  /** The first entry of `keys`, in list order, related to `c`. */
  function FirstRelated(c: string, keys: seq<string>): (r: Option<nat>)
    ensures r.Some? ==> FirstRelatedAt(c, keys, r.value)
    ensures r.None? ==> forall j :: 0 <= j < |keys| ==> !Related(c, keys[j])
  {
    if keys == [] then None
    else if Related(c, keys[0]) then Some(0)
    else match FirstRelated(c, keys[1..])
      case None => None
      case Some(j) => Some(j + 1)
  }

  /**
   * The lookup at the end of `normalize_award_phrase`: the first entry of
   * `keys`, in list order, related to the cleaned phrase `c`.
   */
  function Pick(c: string, keys: seq<string>): (r: Option<string>)
    ensures r.Some? ==> r.value in keys && exists j: nat :: FirstRelatedAt(c, keys, j) && r.value == keys[j]
    ensures r.None? <==> forall j :: 0 <= j < |keys| ==> !Related(c, keys[j])
  {
    match FirstRelated(c, keys)
    case None => None
    case Some(j) => Some(keys[j])
  }

  /**
   * `normalize_award_phrase(phrase)` over the vocabulary `keys`: None for a
   * missing or empty phrase and for a cleaned phrase the rejection rules
   * refuse; otherwise the lookup on the cleaned phrase.
   */
  function NormalizeWith(phrase: Option<string>, keys: seq<string>): (r: Option<string>)
    ensures phrase.None? || phrase.value == [] ==> r.None?
    ensures r.Some? ==> r.value in keys
    ensures r.None? && phrase.Some? && phrase.value != [] ==>
      Rejected(Clean(phrase.value)) || forall j :: 0 <= j < |keys| ==> !Related(Clean(phrase.value), keys[j])
  {
    if phrase.None? || phrase.value == [] then None
    else
      var c := Clean(phrase.value);
      if Rejected(c) then None else Pick(c, keys)
  }

  /** A result is a vocabulary entry, the first one related to the cleaned phrase, which passed the rejection rules. */
  lemma NormalizeWithResult(phrase: Option<string>, keys: seq<string>)
    requires NormalizeWith(phrase, keys).Some?
    ensures var r := NormalizeWith(phrase, keys).value; var c := Clean(phrase.value);
      && phrase.Some? && phrase.value != [] && !Rejected(c) && r in keys
      && exists j: nat :: FirstRelatedAt(c, keys, j) && r == keys[j]
  {
  }

  /** `normalize_award_phrase` over AWARD_KEYWORDS. */
  function NormalizeAwardPhrase(phrase: Option<string>): Option<string> {
    NormalizeWith(phrase, Keywords)
  }

  /** Upper and lower case spellings of a phrase normalise alike. */
  lemma NormalizeIgnoresCase(phrase: string)
    ensures NormalizeAwardPhrase(Some(Lower(phrase))) == NormalizeAwardPhrase(Some(phrase))
  {
    CleanIgnoresCase(phrase);
    SameClean(Lower(phrase), phrase, Keywords);
  }

  /** Phrases that are both empty or both not, and clean alike, normalise alike. */
  lemma SameClean(p1: string, p2: string, keys: seq<string>)
    requires (p1 == []) == (p2 == []) && Clean(p1) == Clean(p2)
    ensures NormalizeWith(Some(p1), keys) == NormalizeWith(Some(p2), keys)
  {
  }

  /** The texts the element loop visits: the lists under each selector, in selector order. */
  function ElementTexts(elements: map<string, seq<string>>, sels: seq<string>): seq<string>
    decreases |sels|
  {
    if sels == [] then []
    else ElementTexts(elements, sels[..|sels| - 1]) + Lookup(elements, sels[|sels| - 1])
  }

  /** `elements.get(selector, [])`. */
  function Lookup(elements: map<string, seq<string>>, key: string): seq<string> {
    if key in elements then elements[key] else []
  }

  /** The normaliser applied to a text from a list. */
  function NormalizeText(t: string): Option<string> {
    NormalizeAwardPhrase(Some(t))
  }

  /** Every text `extract_awards` offers to the normaliser, in the order it offers them. */
  function Candidates(json: seq<string>, description: Option<string>, captures: seq<string>,
                      elements: map<string, seq<string>>): seq<string>
  {
    json + (if description.Some? && description.value != [] then captures else []) + ElementTexts(elements, Selectors)
  }

  /** What `extract_awards` returns: the distinct accepted normalisations in order of first acceptance. */
  function ExtractedAwards(json: seq<string>, description: Option<string>, captures: seq<string>,
                           elements: map<string, seq<string>>): seq<string>
  {
    AddNew([], Map(Candidates(json, description, captures, elements), NormalizeText))
  }

  /**
   * `extract_awards(description, page_content)`: `json` is
   * `page_content.get("awards", [])`, `captures` the matches of the five
   * description patterns in pattern order, and `elements`
   * `page_content.get("elements", {})`.
   */
  method ExtractAwards(json: seq<string>, description: Option<string>, captures: seq<string>,
                       elements: map<string, seq<string>>) returns (awards: seq<string>)
    ensures awards == ExtractedAwards(json, description, captures, elements)
  {
    awards := AddAll([], json, NormalizeText);
    var descTexts: seq<string> := [];
    if description.Some? && description.value != [] {
      awards := AddAll(awards, captures, NormalizeText);
      descTexts := captures;
    }
    AddNewMapAppend([], json, descTexts, NormalizeText);
    awards := AddElementTexts(awards, elements, Selectors);
    AddNewMapAppend([], json + descTexts, ElementTexts(elements, Selectors), NormalizeText);
  }

  /** The loop over selectors and, for each, over its element texts. */
  method AddElementTexts(awards: seq<string>, elements: map<string, seq<string>>, sels: seq<string>)
    returns (r: seq<string>)
    ensures r == AddNew(awards, Map(ElementTexts(elements, sels), NormalizeText))
  {
    r := awards;
    for s := 0 to |sels|
      invariant r == AddNew(awards, Map(ElementTexts(elements, sels[..s]), NormalizeText))
    {
      assert sels[..s + 1][..s] == sels[..s];
      var texts := Lookup(elements, sels[s]);
      AddNewMapAppend(awards, ElementTexts(elements, sels[..s]), texts, NormalizeText);
      r := AddAll(r, texts, NormalizeText);
    }
    assert sels[..|sels|] == sels;
  }

  /** The extracted list has no duplicates and holds vocabulary entries only. */
  lemma ExtractedAwardsValid(json: seq<string>, description: Option<string>, captures: seq<string>,
                             elements: map<string, seq<string>>)
    ensures var r := ExtractedAwards(json, description, captures, elements);
      NoDuplicates(r) && forall i :: 0 <= i < |r| ==> r[i] in Keywords
  {
    var cs := Candidates(json, description, captures, elements);
    var xs := Map(cs, NormalizeText);
    var r := AddNew([], xs);
    forall i | 0 <= i < |r| ensures r[i] in Keywords {
      NormalizedIn(cs, r[i]);
    }
  }

  lemma NormalizedIn(cs: seq<string>, a: string)
    requires Some(a) in Map(cs, NormalizeText)
    ensures a in Keywords
  {
    var xs := Map(cs, NormalizeText);
    var j :| 0 <= j < |xs| && xs[j] == Some(a);
    var r := NormalizeWith(Some(cs[j]), Keywords);
    assert xs[j] == r && r.Some? && r.value == a;
  }

  /** A result is the normalisation of some candidate, and every accepted candidate's normalisation is a result. */
  lemma ExtractedAwardsExact(json: seq<string>, description: Option<string>, captures: seq<string>,
                             elements: map<string, seq<string>>, a: string)
    ensures var xs := Candidates(json, description, captures, elements);
      a in ExtractedAwards(json, description, captures, elements) <==>
        exists i :: 0 <= i < |xs| && NormalizeAwardPhrase(Some(xs[i])) == Some(a)
  {
    var xs := Candidates(json, description, captures, elements);
    var n := Map(xs, NormalizeText);
    var r := AddNew([], n);
    if a in r {
      var k :| 0 <= k < |r| && r[k] == a;
      var j :| 0 <= j < |n| && n[j] == Some(r[k]);
    }
  }

  lemma ElementTextsEmpty(sels: seq<string>)
    ensures ElementTexts(map[], sels) == []
  {
  }

  /** No awards key, no description and no elements give no awards. */
  lemma ExtractedAwardsNothing()
    ensures ExtractedAwards([], None, [], map[]) == []
  {
    ElementTextsEmpty(Selectors);
  }

  /** Cleaning leaves alone a phrase that is already trimmed, lower case and single spaced, without quotes or filler words. */
  lemma CleanFixed(p: string)
    requires Trimmed(p) && NoUpper(p) && SingleSpaced(p)
    requires forall i :: 0 <= i < |p| ==> p[i] !in Quotes
    requires !WordSearch(p, Fillers)
    ensures Clean(p) == p
  {
    assert Strip(p) == p;
    LowerNoUpper(p);
    CollapseSingleSpaced(p);
    assert Without(p, Quotes) == p;
    assert RemoveWords(p, Fillers) == p;
  }

  /**
   * Filler removal deletes a whole filler word and leaves the spaces on
   * either side of it: "best for you" cleans to "best  you".
   */
  lemma CleanDropsFiller(p: string)
    requires p == "best for you"
    ensures Clean(p) == "best  you"
  {
    BestForYouClean(p);
    BestForYouRemoved(p);
    BestYouTrimmed("best  you");
    CleanStages(p, p, "best  you");
  }

  /** `Clean` is the strip of the filler removal of the earlier stages. */
  lemma CleanStages(p: string, d: string, e: string)
    requires d == Without(CollapseSpaces(Lower(Strip(p))), Quotes)
    requires e == RemoveWords(d, Fillers)
    ensures Clean(p) == Strip(e)
  {
  }

  lemma BestYouTrimmed(e: string)
    requires e == "best  you"
    ensures Trimmed(e)
  {
  }

  /** The stages before filler removal leave "best for you" as it is. */
  lemma BestForYouClean(p: string)
    requires p == "best for you"
    ensures Without(CollapseSpaces(Lower(Strip(p))), Quotes) == p
  {
    BestForYouShape(p);
    BestForYouChars(p);
    StagesFixed(p, Quotes);
  }

  lemma BestForYouShape(p: string)
    requires p == "best for you"
    ensures Trimmed(p) && SingleSpaced(p)
  {
  }

  lemma BestForYouChars(p: string)
    requires p == "best for you"
    ensures NoUpper(p) && forall i :: 0 <= i < |p| ==> p[i] !in Quotes
  {
  }

  /** "for", the sixth alternative, is the filler matched at position 5, and no other position matches. */
  lemma BestForYouRemoved(p: string)
    requires p == "best for you"
    ensures RemoveWords(p, Fillers) == "best  you"
  {
    BestForYouNoMatch(p);
    BestForYouFor(p);
    RemoveWordsSingle(p, Fillers, 5, 5);
    BestForYouSlices(p);
  }

  lemma BestForYouSlices(p: string)
    requires p == "best for you"
    ensures p[..5] + p[8..] == "best  you"
  {
  }

  /** No filler matches before or after "for" in "best for you". */
  lemma BestForYouNoMatch(p: string)
    requires p == "best for you"
    ensures forall j: nat, w :: j < 5 && w in Fillers ==> !WholeWordAt(p, j, w)
    ensures forall j: nat, w :: 8 <= j < |p| && w in Fillers ==> !WholeWordAt(p, j, w)
  {
    var firsts := {'w', 'a', 'r', 'f', 'i'};
    FillerFirsts(firsts);
    NoMatchByFirst(p, Fillers, firsts, 0, 5);
    NoMatchByFirst(p, Fillers, firsts, 8, 12);
  }

  lemma FillerFirsts(firsts: set<char>)
    requires firsts == {'w', 'a', 'r', 'f', 'i'}
    ensures forall k :: 0 <= k < |Fillers| ==> Fillers[k] != [] && Fillers[k][0] in firsts
  {
  }

  /** At position 5 of "best for you" the first filler matching as a whole word is "for". */
  lemma BestForYouFor(p: string)
    requires p == "best for you"
    ensures 5 < |Fillers| && Fillers[5] != [] && |Fillers[5]| == 3 && WholeWordAt(p, 5, Fillers[5])
    ensures forall k' :: 0 <= k' < 5 ==> !WholeWordAt(p, 5, Fillers[k'])
  {
    assert Fillers[5] == "for" && p[5..8] == "for";
  }

  /** The shape facts "best overall project" needs, stated of a variable equal to it. */
  lemma BestOverallTrimmed(p: string)
    requires p == "best overall project"
    ensures Trimmed(p) && SingleSpaced(p)
  {
  }

  lemma BestOverallLower(p: string)
    requires p == "best overall project"
    ensures NoUpper(p) && !HasDigit(p)
    ensures forall i :: 0 <= i < |p| ==> p[i] !in Quotes
  {
  }

  lemma BestOverallNoFiller(p: string)
    requires p == "best overall project"
    ensures !WordSearch(p, Fillers)
  {
    NoWordSearch(p, Fillers, {'w', 'i', 'h', 'f'}, [0, 1, 1, 3, 4, 0, 0, 0]);
  }

  lemma BestOverallNoStop(p: string)
    requires p == "best overall project"
    ensures !WordSearch(p, StopTerms)
  {
    NoWordSearch(p, StopTerms, {'i', 'h', 'u', 'f', 'n', 'w', 'm'}, [0, 1, 4, 0, 5, 0, 3, 3, 0, 3, 5]);
  }

  lemma BestOverallWords(p: string)
    requires p == "best overall project"
    ensures WordCount(p) == 3
  {
    assert p == "best" + " " + ("overall" + " " + "project");
    WordsThree("best", "overall", "project");
  }

  /** "best overall project" is unchanged by cleaning and passes the rejection rules. */
  lemma CleanBestOverall(p: string)
    requires p == "best overall project"
    ensures Clean(p) == p
    ensures !Rejected(p)
  {
    BestOverallTrimmed(p);
    BestOverallLower(p);
    BestOverallNoFiller(p);
    CleanFixed(p);
    BestOverallNoStop(p);
    BestOverallWords(p);
  }

  /** A phrase is accepted as the `j`-th entry when that is the first one related to its cleaned form. */
  lemma NormalizeAccepts(phrase: string, keys: seq<string>, j: nat)
    requires phrase != [] && !Rejected(Clean(phrase))
    requires FirstRelatedAt(Clean(phrase), keys, j)
    ensures NormalizeWith(Some(phrase), keys) == Some(keys[j])
  {
    PickFirst(Clean(phrase), keys, j);
  }

  /** A phrase the rejection rules refuse once cleaned normalises to None, whatever the vocabulary. */
  lemma NormalizeRejected(phrase: string, keys: seq<string>)
    requires phrase != [] && Rejected(Clean(phrase))
    ensures NormalizeWith(Some(phrase), keys) == None
  {
  }

  /** An accepted phrase that no entry is related to normalises to None. */
  lemma NormalizeUnrelated(phrase: string, keys: seq<string>)
    requires phrase != [] && !Rejected(Clean(phrase))
    requires forall j :: 0 <= j < |keys| ==> !Related(Clean(phrase), keys[j])
    ensures NormalizeWith(Some(phrase), keys) == None
  {
  }

  lemma PickFirst(c: string, keys: seq<string>, j: nat)
    requires FirstRelatedAt(c, keys, j)
    ensures Pick(c, keys) == Some(keys[j])
  {
    var r := FirstRelated(c, keys);
    assert r.Some? && r.value == j;
  }

  lemma BestOverallRelated(p: string)
    requires p == "best overall project"
    ensures Related(p, Keywords[0])
  {
    ContainsAt(p, Keywords[0], 0);
  }

  /** The vocabulary's first entry, in lower case, normalises to itself. */
  lemma NormalizeBestOverallLower(p: string)
    requires p == "best overall project"
    ensures NormalizeAwardPhrase(Some(p)) == Some(p)
  {
    BestOverallFirst(p);
    NormalizeAccepts(p, Keywords, 0);
  }

  lemma BestOverallFirst(p: string)
    requires p == "best overall project"
    ensures p != [] && !Rejected(Clean(p)) && FirstRelatedAt(Clean(p), Keywords, 0) && Keywords[0] == p
  {
    FirstKeyword(p);
    CleanBestOverall(p);
    BestOverallRelated(p);
  }

  lemma FirstKeyword(p: string)
    requires p == "best overall project"
    ensures Keywords[0] == p
  {
  }

  /**
   * The vocabulary's first entry normalises to itself in any capitalisation,
   * "Best Overall Project" among them.
   */
  lemma NormalizeBestOverall(phrase: string)
    requires Lower(phrase) == "best overall project"
    ensures NormalizeAwardPhrase(Some(phrase)) == Some("best overall project")
  {
    var p := Lower(phrase);
    NormalizeBestOverallLower(p);
    NormalizeIgnoresCase(phrase);
  }

  /** A phrase shorter than five characters is rejected. */
  lemma NormalizeShort(phrase: string)
    requires |phrase| < 5
    ensures NormalizeAwardPhrase(Some(phrase)).None?
  {
  }
}

/**
 * The award census script (count_all_awards.py): a normaliser that cleans a
 * phrase and applies rejection rules without mapping it onto a vocabulary, an
 * extractor gated on eight valid keywords, and the grouping of publication
 * ids by extracted award.
 */
module CountAllAwards {
  import opened Wrappers
  import opened Text
  import opened Patterns
  import opened Lists

  /** The alternatives of `\b(at the|for|in|with)\b`. */
  const Fillers: seq<string> := ["at the", "for", "in", "with"]

  /** The alternatives of the stop-word search. */
  const StopTerms: seq<string> := [
    "it", "this", "because", "from", "classification", "usecases", "trending", "topics", "way"
  ]

  /** `valid_keywords` of `extract_awards`. */
  const ValidKeywords: seq<string> := [
    "best overall project", "most innovative project", "most promising innovation",
    "best technical implementation", "distinguished technical deep-dive",
    "the imagenet competition in 2012", "innovative approach", "outstanding contribution"
  ]

  const Quotes: set<char> := {'\'', '`'}

  /**
   * The cleaning chain: strip, lower-case, collapse whitespace runs, delete
   * quotes and backticks, delete the filler words, strip again. Filler removal
   * leaves the spaces around a removed word in place.
   */
  function Clean(award: string): (c: string)
    ensures NoUpper(c) && Trimmed(c) && |c| <= |award|
    ensures forall i :: 0 <= i < |c| ==> c[i] !in Quotes
  {
    var a := Lower(Strip(award));
    var b := CollapseSpaces(a);
    var d := Without(b, Quotes);
    var e := RemoveWords(d, Fillers);
    CleanFacts(a, b, d, e);
    Strip(e)
  }

  lemma CleanFacts(a: string, b: string, d: string, e: string)
    requires NoUpper(a) && b == CollapseSpaces(a) && d == Without(b, Quotes) && e == RemoveWords(d, Fillers)
    ensures NoUpper(Strip(e)) && |Strip(e)| <= |a|
    ensures forall i :: 0 <= i < |Strip(e)| ==> Strip(e)[i] !in Quotes
  {
    CollapseNoUpper(a);
    CharsFromNoUpper(d, b);
    CharsFromNoUpper(e, d);
    var c := Strip(e);
    CharsFromNoUpper(c, e);
    forall i | 0 <= i < |c| ensures c[i] !in Quotes {
      var j :| 0 <= j < |e| && e[j] == c[i];
      var k :| 0 <= k < |d| && d[k] == e[j];
    }
  }

  /** The rejection rules: too short, a stop word, a digit, or more than five tokens. */
  predicate Rejected(c: string) {
    |c| < 5 || WordSearch(c, StopTerms) || HasDigit(c) || WordCount(c) > 5
  }

  /**
   * `normalize_award(award)`: None for a missing or empty award; otherwise
   * the cleaned phrase when it passes the rejection rules.
   */
  function NormalizeAward(award: Option<string>): (r: Option<string>)
    ensures award.None? || award.value == [] ==> r.None?
    ensures r.Some? <==> award.Some? && award.value != [] && !Rejected(Clean(award.value))
    ensures r.Some? ==> r.value == Clean(award.value)
    ensures r.Some? ==> var c := r.value;
      && |c| >= 5 && !HasDigit(c) && WordCount(c) <= 5 && !WordSearch(c, StopTerms)
      && NoUpper(c) && Trimmed(c) && forall i :: 0 <= i < |c| ==> c[i] !in Quotes
  {
    if award.None? || award.value == [] then None
    else
      var c := Clean(award.value);
      if Rejected(c) then None else Some(c)
  }

  /** Upper and lower case spellings of an award normalise alike. */
  lemma NormalizeIgnoresCase(award: string)
    ensures NormalizeAward(Some(Lower(award))) == NormalizeAward(Some(award))
  {
    StripLower(award);
    LowerIdempotent(Strip(award));
  }

  /** Cleaning leaves alone a phrase that is already in cleaned form with single spaces and no filler word. */
  lemma CleanFixed(p: string)
    requires Trimmed(p) && NoUpper(p) && SingleSpaced(p)
    requires forall i :: 0 <= i < |p| ==> p[i] !in Quotes
    requires !WordSearch(p, Fillers)
    ensures Clean(p) == p
  {
    assert Strip(p) == p;
    LowerNoUpper(p);
    CollapseSingleSpaced(p);
    assert Without(p, Quotes) == p;
    assert RemoveWords(p, Fillers) == p;
  }

  /**
   * Filler removal deletes a whole filler word and leaves the spaces on
   * either side of it: "best for you" cleans to "best  you".
   */
  lemma CleanDropsFiller(p: string)
    requires p == "best for you"
    ensures Clean(p) == "best  you"
  {
    BestForYouClean(p);
    BestForYouRemoved(p);
    BestYouTrimmed("best  you");
    CleanStages(p, p, "best  you");
  }

  /** `Clean` is the strip of the filler removal of the earlier stages. */
  lemma CleanStages(p: string, d: string, e: string)
    requires d == Without(CollapseSpaces(Lower(Strip(p))), Quotes)
    requires e == RemoveWords(d, Fillers)
    ensures Clean(p) == Strip(e)
  {
  }

  lemma BestYouTrimmed(e: string)
    requires e == "best  you"
    ensures Trimmed(e)
  {
  }

  /** The stages before filler removal leave "best for you" as it is. */
  lemma BestForYouClean(p: string)
    requires p == "best for you"
    ensures Without(CollapseSpaces(Lower(Strip(p))), Quotes) == p
  {
    BestForYouShape(p);
    BestForYouChars(p);
    StagesFixed(p, Quotes);
  }

  lemma BestForYouShape(p: string)
    requires p == "best for you"
    ensures Trimmed(p) && SingleSpaced(p)
  {
  }

  lemma BestForYouChars(p: string)
    requires p == "best for you"
    ensures NoUpper(p) && forall i :: 0 <= i < |p| ==> p[i] !in Quotes
  {
  }

  /** "for", the second alternative, is the filler matched at position 5, and no other position matches. */
  lemma BestForYouRemoved(p: string)
    requires p == "best for you"
    ensures RemoveWords(p, Fillers) == "best  you"
  {
    BestForYouNoMatch(p);
    BestForYouFor(p);
    RemoveWordsSingle(p, Fillers, 5, 1);
    BestForYouSlices(p);
  }

  lemma BestForYouSlices(p: string)
    requires p == "best for you"
    ensures p[..5] + p[8..] == "best  you"
  {
  }

  /** No filler matches before or after "for" in "best for you". */
  lemma BestForYouNoMatch(p: string)
    requires p == "best for you"
    ensures forall j: nat, w :: j < 5 && w in Fillers ==> !WholeWordAt(p, j, w)
    ensures forall j: nat, w :: 8 <= j < |p| && w in Fillers ==> !WholeWordAt(p, j, w)
  {
    var firsts := {'a', 'f', 'i', 'w'};
    FillerFirsts(firsts);
    NoMatchByFirst(p, Fillers, firsts, 0, 5);
    NoMatchByFirst(p, Fillers, firsts, 8, 12);
  }

  lemma FillerFirsts(firsts: set<char>)
    requires firsts == {'a', 'f', 'i', 'w'}
    ensures forall k :: 0 <= k < |Fillers| ==> Fillers[k] != [] && Fillers[k][0] in firsts
  {
  }

  /** At position 5 of "best for you" the first filler matching as a whole word is "for". */
  lemma BestForYouFor(p: string)
    requires p == "best for you"
    ensures 1 < |Fillers| && Fillers[1] != [] && |Fillers[1]| == 3 && WholeWordAt(p, 5, Fillers[1])
    ensures forall k' :: 0 <= k' < 1 ==> !WholeWordAt(p, 5, Fillers[k'])
  {
    assert Fillers[1] == "for" && p[5..8] == "for";
  }

  /**
   * Normalising again changes nothing when the first result is single spaced
   * and free of filler words. Filler removal can leave two adjacent spaces,
   * so the normaliser is not idempotent in general.
   */
  lemma NormalizeAgain(award: string, r: string)
    requires NormalizeAward(Some(award)) == Some(r)
    requires SingleSpaced(r) && !WordSearch(r, Fillers)
    ensures NormalizeAward(Some(r)) == Some(r)
  {
    CleanFixed(r);
  }

  /** A keyword is related to a phrase when either contains the other. */
  predicate Related(c: string, k: string) {
    Contains(c, k) || Contains(k, c)
  }

  /** `any(vk in n or n in vk for vk in valid_keywords)`. */
  function RelatedToValid(n: string): (b: bool)
    ensures b <==> exists k :: k in ValidKeywords && Related(n, k)
  {
    RelatedToAny(n, ValidKeywords)
  }

  function RelatedToAny(n: string, keys: seq<string>): (b: bool)
    ensures b <==> exists k :: k in keys && Related(n, k)
  {
    if keys == [] then false else Related(n, keys[0]) || RelatedToAny(n, keys[1..])
  }

  /** The phrase a candidate contributes to `extracted`: its normalisation, when truthy and related to a valid keyword. */
  function Accept(t: string): (r: Option<string>)
    ensures r.Some? <==> t != [] && !Rejected(Clean(t)) && RelatedToValid(Clean(t))
    ensures r.Some? ==> r.value == Clean(t)
  {
    var n := NormalizeAward(Some(t));
    if n.Some? && RelatedToValid(n.value) then n else None
  }

  /** The accepted phrases of `texts`, in order and with repeats: the `extracted` list. */
  function AcceptedPhrases(texts: seq<string>): seq<string> {
    Present(Map(texts, Accept))
  }

  /** `list(set(extracted))`, listed in order of first acceptance. */
  function ExtractedAwards(json: seq<string>, captures: seq<string>): seq<string> {
    Dedup(AcceptedPhrases(json + captures))
  }

  /**
   * `extract_awards(desc, json_awards)`: `json` is `json_awards or []` and
   * `captures` the matches of the five description patterns, in pattern order.
   */
  method ExtractAwards(json: seq<string>, captures: seq<string>) returns (awards: seq<string>)
    ensures awards == ExtractedAwards(json, captures)
  {
    var extracted := AppendBoth(json, captures, Accept);
    awards := Dedup(extracted);
  }

  /**
   * The extracted list has no duplicates, and its members are exactly the
   * normalisations of candidates that are related to a valid keyword.
   */
  lemma ExtractedAwardsExact(json: seq<string>, captures: seq<string>, a: string)
    ensures NoDuplicates(ExtractedAwards(json, captures))
    ensures var xs := json + captures;
      a in ExtractedAwards(json, captures) <==>
        exists i :: 0 <= i < |xs| && NormalizeAward(Some(xs[i])) == Some(a) && RelatedToValid(a)
  {
    var xs := json + captures;
    var m := Map(xs, Accept);
    PresentMembers(m, a);
  }

  /** Every extracted award passes the normaliser's rules and is related to a valid keyword. */
  lemma ExtractedAwardsValid(json: seq<string>, captures: seq<string>)
    ensures forall a :: a in ExtractedAwards(json, captures) ==>
      && |a| >= 5 && !HasDigit(a) && WordCount(a) <= 5 && !WordSearch(a, StopTerms)
      && NoUpper(a) && Trimmed(a)
      && exists k :: k in ValidKeywords && Related(a, k)
  {
    forall a | a in ExtractedAwards(json, captures)
      ensures && |a| >= 5 && !HasDigit(a) && WordCount(a) <= 5 && !WordSearch(a, StopTerms)
              && NoUpper(a) && Trimmed(a)
              && exists k :: k in ValidKeywords && Related(a, k)
    {
      ExtractedAwardsExact(json, captures, a);
      var xs := json + captures;
      var i :| 0 <= i < |xs| && NormalizeAward(Some(xs[i])) == Some(a) && RelatedToValid(a);
    }
  }

  /** A publication record: its id, its JSON award tags and the description pattern captures. */
  datatype Publication = Publication(id: string, awards: seq<string>, captures: seq<string>)

  function PubAwards(p: Publication): seq<string> {
    ExtractedAwards(p.awards, p.captures)
  }

  /** Some publication among the first `n` has extracted award `a`. */
  ghost predicate AwardSeen(data: seq<Publication>, n: nat, a: string) {
    exists j :: 0 <= j < n && j < |data| && a in PubAwards(data[j])
  }

  /** Some publication among the first `n` has id `id` and extracted award `a`. */
  ghost predicate AwardedTo(data: seq<Publication>, n: nat, a: string, id: string) {
    exists j :: 0 <= j < n && j < |data| && data[j].id == id && a in PubAwards(data[j])
  }

  /**
   * The grouping loop `award_counts[award].add(pub_id)`: the keys are the
   * awards extracted from some publication, and each key maps to exactly the
   * ids of the publications it was extracted from.
   */
  method GroupByAward(data: seq<Publication>) returns (counts: map<string, set<string>>)
    ensures forall a :: a in counts <==> AwardSeen(data, |data|, a)
    ensures forall a, id :: a in counts ==> (id in counts[a] <==> AwardedTo(data, |data|, a, id))
  {
    counts := map[];
    for i := 0 to |data|
      invariant forall a :: a in counts <==> AwardSeen(data, i, a)
      invariant forall a, id :: a in counts ==> (id in counts[a] <==> AwardedTo(data, i, a, id))
    {
      var awards := ExtractAwards(data[i].awards, data[i].captures);
      var next := AddUnder(counts, data[i].id, awards);
      forall a ensures a in next <==> AwardSeen(data, i + 1, a) {
        AwardSeenStep(data, i, a);
      }
      forall a, id | a in next ensures id in next[a] <==> AwardedTo(data, i + 1, a, id) {
        AwardedToStep(data, i, a, id);
      }
      counts := next;
    }
  }

  /** The inner loop: `pid` is added to the set of each award in `awards`, a new key starting empty. */
  method AddUnder(counts: map<string, set<string>>, pid: string, awards: seq<string>)
    returns (r: map<string, set<string>>)
    ensures forall a :: a in r <==> a in counts || a in awards
    ensures forall a, id :: a in r ==>
      (id in r[a] <==> (a in counts && id in counts[a]) || (id == pid && a in awards))
  {
    r := counts;
    for k := 0 to |awards|
      invariant forall a :: a in r <==> a in counts || a in awards[..k]
      invariant forall a, id :: a in r ==>
        (id in r[a] <==> (a in counts && id in counts[a]) || (id == pid && a in awards[..k]))
    {
      var a := awards[k];
      var ids := if a in r then r[a] else {};
      r := r[a := ids + {pid}];
      assert awards[..k + 1] == awards[..k] + [a];
    }
    assert awards[..|awards|] == awards;
  }

  lemma AwardSeenStep(data: seq<Publication>, i: nat, a: string)
    requires i < |data|
    ensures AwardSeen(data, i + 1, a) <==> AwardSeen(data, i, a) || a in PubAwards(data[i])
  {
    if AwardSeen(data, i + 1, a) && a !in PubAwards(data[i]) {
      var j :| 0 <= j < i + 1 && j < |data| && a in PubAwards(data[j]);
      assert j != i;
    }
  }

  lemma AwardedToStep(data: seq<Publication>, i: nat, a: string, id: string)
    requires i < |data|
    ensures AwardedTo(data, i + 1, a, id) <==>
      AwardedTo(data, i, a, id) || (id == data[i].id && a in PubAwards(data[i]))
  {
    if AwardedTo(data, i + 1, a, id) && !(id == data[i].id && a in PubAwards(data[i])) {
      var j :| 0 <= j < i + 1 && j < |data| && data[j].id == id && a in PubAwards(data[j]);
      assert j != i;
    }
  }
}

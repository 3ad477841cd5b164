/**
 * The Streamlit front end (app.py): how `ask_assistant` picks at most five
 * retrieved documents, with or without an award filter, how it lays them out
 * as the context string, and how the award is parsed from the user's input.
 */
module App {
  import opened Wrappers
  import opened Text
  import opened Lists
  import opened Retrieval
  import opened TagQuery

  /** The number of documents kept (`unique[:5]`). */
  const Keep: nat := 5

  /** `award.strip().lower() if award else None`. */
  function AwardNorm(award: Option<string>): (r: Option<string>)
    ensures r.None? <==> award.None? || award.value == []
    ensures r.Some? ==> NoUpper(r.value) && Trimmed(r.value) && |r.value| <= |award.value|
    ensures r.Some? ==> r.value == Strip(Lower(award.value)) && (r.value == [] <==> AllSpace(award.value))
  {
    if award.None? || award.value == [] then None
    else
      StripLower(award.value);
      Some(Lower(Strip(award.value)))
  }

  /** An award padded with whitespace normalises to its trimmed text, lower-cased. */
  lemma AwardNormPadded(l: string, s: string, r: string)
    requires AllSpace(l) && AllSpace(r) && s != [] && Trimmed(s)
    ensures AwardNorm(Some(l + s + r)) == Some(Lower(s))
  {
    StripPadded(l, s, r);
  }

  /** The award filter is used when the normalised award is truthy. */
  predicate Filtering(award: Option<string>) {
    var an := AwardNorm(award);
    an.Some? && an.value != []
  }

  /** `doc.metadata.get("awards", "none").lower()`. */
  function AwardsField(d: Doc): string {
    Lower(d.awards.GetOr("none"))
  }

  /** The exact tier: the award occurs in the awards field or in the lower-cased content. */
  predicate ExactMatch(an: string, d: Doc) {
    Contains(AwardsField(d), an) || Contains(Lower(d.content), an)
  }

  /** The pieces of the awards field between " | " separators. */
  function Pieces(d: Doc): (ps: seq<string>)
    ensures |ps| >= 1
  {
    SplitOn(AwardsField(d), " | ")
  }

  /** The fuzzy tier: some piece scores above 70 with `fuzz.ratio`, or above 0.7 with difflib when fuzzywuzzy is missing. */
  predicate FuzzyMatch(an: string, d: Doc, sim: Similarity) {
    var ps := Pieces(d);
    if sim.fuzzyAvailable then exists i :: 0 <= i < |ps| && sim.fuzz(an, Lower(ps[i])) > 70
    else exists i :: 0 <= i < |ps| && sim.ratio(an, Lower(ps[i])) > 0.7
  }

  predicate Accepted(an: string, sim: Similarity, d: Doc) {
    ExactMatch(an, d) || FuzzyMatch(an, d, sim)
  }

  /** The filter loop: each document passing the exact tier, or failing it and passing the fuzzy tier, is kept in order. */
  method FilterDocs(docs: seq<Doc>, an: string, sim: Similarity) returns (filtered: seq<Doc>)
    ensures filtered == Filter(docs, d => Accepted(an, sim, d))
  {
    filtered := [];
    for i := 0 to |docs|
      invariant filtered == Filter(docs[..i], d => Accepted(an, sim, d))
    {
      assert docs[..i + 1][..i] == docs[..i];
      var doc := docs[i];
      var awardsStr := AwardsField(doc);
      var content := Lower(doc.content);
      if Contains(awardsStr, an) || Contains(content, an) {
        filtered := filtered + [doc];
        continue;
      }
      var accept := FuzzyTier(an, doc, sim);
      if accept {
        filtered := filtered + [doc];
      }
    }
    assert docs[..|docs|] == docs;
  }

  /** `any(... > threshold for a in awards_str.split(" | "))` in whichever form is available. */
  method FuzzyTier(an: string, doc: Doc, sim: Similarity) returns (b: bool)
    ensures b == FuzzyMatch(an, doc, sim)
  {
    var ps := Pieces(doc);
    b := false;
    for i := 0 to |ps|
      invariant b <==> exists j :: 0 <= j < i && (if sim.fuzzyAvailable then sim.fuzz(an, Lower(ps[j])) > 70
                                                  else sim.ratio(an, Lower(ps[j])) > 0.7)
    {
      var hit := if sim.fuzzyAvailable then sim.fuzz(an, Lower(ps[i])) > 70 else sim.ratio(an, Lower(ps[i])) > 0.7;
      b := b || hit;
    }
  }

  /**
   * The documents `ask_assistant` passes to the context: with a truthy
   * normalised award, the accepted documents retrieved for the award;
   * otherwise those retrieved for the query; in both cases the first per id,
   * at most five. `retrieve` stands for the retriever with `k = top_k`.
   */
  function Selected(query: string, award: Option<string>, retrieve: string -> seq<Doc>, sim: Similarity): seq<Doc> {
    if Filtering(award) then
      var an := AwardNorm(award).value;
      Take(FirstPerId(Filter(retrieve(an), d => Accepted(an, sim, d))), Keep)
    else
      Take(FirstPerId(retrieve(query)), Keep)
  }

  /** The retrieval and award-filter step of `ask_assistant`. */
  method SelectDocs(query: string, award: Option<string>, retrieve: string -> seq<Doc>, sim: Similarity)
    returns (docs: seq<Doc>)
    ensures docs == Selected(query, award, retrieve, sim)
  {
    var awardNorm := AwardNorm(award);
    if awardNorm.Some? && awardNorm.value != [] {
      var an := awardNorm.value;
      var retrieved := retrieve(an);
      var filtered := FilterDocs(retrieved, an, sim);
      var unique := UniqueById(filtered);
      docs := Take(unique, Keep);
    } else {
      var retrieved := retrieve(query);
      var unique := UniqueById(retrieved);
      docs := Take(unique, Keep);
    }
  }

  /**
   * With an award, at most five documents with distinct ids are kept, each
   * accepted by one of the tiers, in retrieval order, each the first
   * retrieved document with its id among the accepted ones.
   */
  lemma SelectedWithAward(query: string, award: Option<string>, retrieve: string -> seq<Doc>, sim: Similarity)
    requires Filtering(award)
    ensures var an := AwardNorm(award).value;
      var r := Selected(query, award, retrieve, sim);
      && |r| <= Keep && UniqueIds(r)
      && IsSubsequence(r, retrieve(an))
      && (forall k :: 0 <= k < |r| ==> Accepted(an, sim, r[k]))
      && FirstOfEachId(r, Filter(retrieve(an), d => Accepted(an, sim, d)), Keep)
  {
    var an := AwardNorm(award).value;
    FilteredSelection(retrieve(an), d => Accepted(an, sim, d), Keep);
  }

  /** Without an award, the first five distinct-id documents retrieved for the query, in retrieval order. */
  lemma SelectedWithoutAward(query: string, award: Option<string>, retrieve: string -> seq<Doc>, sim: Similarity)
    requires !Filtering(award)
    ensures var r := Selected(query, award, retrieve, sim);
      && |r| <= Keep && UniqueIds(r) && IsSubsequence(r, retrieve(query))
      && r == Take(FirstPerId(retrieve(query)), Keep)
      && FirstOfEachId(r, retrieve(query), Keep)
  {
    TakeFirstPerId(retrieve(query), Keep);
    TakeFirstOfEachId(retrieve(query), Keep);
  }

  /** With an award the retriever is asked about the award, so the query text plays no part. */
  lemma SelectedIgnoresQuery(q1: string, q2: string, award: Option<string>, retrieve: string -> seq<Doc>, sim: Similarity)
    requires Filtering(award)
    ensures Selected(q1, award, retrieve, sim) == Selected(q2, award, retrieve, sim)
  {
  }

  /** A document is kept by the filter when the award occurs in its awards field, whatever the ratios say. */
  lemma ExactTierAccepts(an: string, sim: Similarity, d: Doc)
    requires Contains(Lower(d.awards.GetOr("none")), an)
    ensures Accepted(an, sim, d)
  {
  }

  /** A document without the award in its text needs a piece scoring strictly above the threshold. */
  lemma FuzzyTierNeeded(an: string, sim: Similarity, d: Doc)
    requires !ExactMatch(an, d) && sim.fuzzyAvailable
    requires forall i :: 0 <= i < |Pieces(d)| ==> sim.fuzz(an, Lower(Pieces(d)[i])) <= 70
    ensures !Accepted(an, sim, d)
  {
  }

  // ---------------------------------------------------------------------
  // Context
  // ---------------------------------------------------------------------

  /** `context_lines` element for one document; None when it has no "awards" key. */
  function Section(d: Doc): Option<string> {
    match d.awards
    case None => None
    case Some(a) => Some("Title: " + d.title + "\nID: " + d.id + "\nAwards: " + a + "\nContent: " + d.content)
  }

  /** `"\n\n".join(context_lines)`; None stands for the KeyError the comprehension raises. */
  function BuildContext(docs: seq<Doc>): Option<string> {
    match AllSome(docs, Section)
    case None => None
    case Some(ss) => Some(Join(ss, "\n\n"))
  }

  /** No documents give the empty context, and documents with awards give a non-empty one. */
  lemma BuildContextEmpty(docs: seq<Doc>)
    requires forall k :: 0 <= k < |docs| ==> docs[k].awards.Some?
    ensures BuildContext(docs) == Some("") <==> docs == []
  {
    if docs != [] {
      var ss := AllSome(docs, Section).value;
      assert Section(docs[0]) == Some(ss[0]);
      assert |ss[0]| > 0;
      JoinFirst(ss, "\n\n");
    }
  }

  /** One more document adds a blank line and its section at the end. */
  lemma BuildContextSnoc(docs: seq<Doc>, d: Doc, ctx: string, s: string)
    requires docs != [] && BuildContext(docs) == Some(ctx) && Section(d) == Some(s)
    ensures BuildContext(docs + [d]) == Some(ctx + "\n\n" + s)
  {
    assert (docs + [d])[..|docs|] == docs;
    var ss := AllSome(docs, Section).value;
    JoinSnoc(ss, s, "\n\n");
  }

  /** A document without an "awards" key makes the whole context fail. */
  lemma BuildContextMissingAwards(docs: seq<Doc>, k: nat)
    requires k < |docs| && docs[k].awards.None?
    ensures BuildContext(docs).None?
  {
  }

  // ---------------------------------------------------------------------
  // Award parsing
  // ---------------------------------------------------------------------

  /**
   * The award parsed from the user's input: the quoted text after "tag" if
   * the pattern matches; otherwise a shortcut for "most innovative", then for
   * "best overall"; otherwise None.
   */
  function ParseAward(input: string): (r: Option<string>)
    ensures r.Some? ==> r.value != [] && forall k :: 0 <= k < |r.value| ==> !IsQuote(r.value[k])
  {
    var m := SearchTag(input);
    if m.Some? then m
    else if Contains(Lower(input), "most innovative") then
      var a := "most innovative project";
      ShortcutShape(a);
      Some(a)
    else if Contains(Lower(input), "best overall") then
      var a := "best overall project";
      ShortcutShape(a);
      Some(a)
    else None
  }

  lemma ShortcutShape(a: string)
    requires a == "most innovative project" || a == "best overall project"
    ensures a != [] && forall k :: 0 <= k < |a| ==> !IsQuote(a[k])
  {
  }

  /** A tag in quotes wins over the shortcuts, and its captured text is what is parsed. */
  lemma ParseAwardTag(input: string, i: nat, q: nat, g: string)
    requires TagShape(input, i, q, g)
    requires forall k: nat :: k < i ==> TagMatchAt(input, k).None?
    ensures ParseAward(input) == Some(g)
  {
    TagMatchComplete(input, i, q, g);
  }

  /** Without a quoted tag, "most innovative" anywhere in the input, in any case, selects that award. */
  lemma ParseAwardInnovative(input: string)
    requires forall i: nat, q: nat, g :: !TagShape(input, i, q, g)
    requires Contains(Lower(input), "most innovative")
    ensures ParseAward(input) == Some("most innovative project")
  {
    SearchTagShape(input);
  }

  /** Without a quoted tag or "most innovative", "best overall" selects that award. */
  lemma ParseAwardBestOverall(input: string)
    requires forall i: nat, q: nat, g :: !TagShape(input, i, q, g)
    requires !Contains(Lower(input), "most innovative") && Contains(Lower(input), "best overall")
    ensures ParseAward(input) == Some("best overall project")
  {
    SearchTagShape(input);
  }

  /** Without a quoted tag or either phrase, no award is parsed. */
  lemma ParseAwardNone(input: string)
    requires forall i: nat, q: nat, g :: !TagShape(input, i, q, g)
    requires !Contains(Lower(input), "most innovative") && !Contains(Lower(input), "best overall")
    ensures ParseAward(input) == None
  {
    SearchTagShape(input);
  }
}

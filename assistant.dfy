/**
 * The retrieval core of assistant.py, shared by the command line and the
 * evaluation: the three-tier award filter `filter_by_award`, the
 * `get_relevant_docs` selection, the `format_context` layout and the award
 * parsing of the command-line loop. The two numbers read from config.yaml,
 * `retrieval.fuzzy_threshold` and `retrieval.final_k`, are parameters.
 */
module Assistant {
  import opened Wrappers
  import opened Text
  import opened Lists
  import opened Retrieval
  import opened TagQuery

  /** `config.retrieval.fuzzy_threshold` and `config.retrieval.final_k`. */
  datatype Settings = Settings(fuzzyThreshold: int, finalK: nat)

  /** `award.lower().strip()`. */
  function AwardNorm(award: string): (an: string)
    ensures NoUpper(an) && Trimmed(an) && |an| <= |award|
    ensures an == [] <==> AllSpace(award)
    ensures an == Lower(Strip(award))
  {
    StripLower(award);
    LowerAllSpace(award);
    Strip(Lower(award))
  }

  /** An award padded with whitespace normalises to its trimmed text, lower-cased. */
  lemma AwardNormPadded(l: string, s: string, r: string)
    requires AllSpace(l) && AllSpace(r) && s != [] && Trimmed(s)
    ensures AwardNorm(l + s + r) == Lower(s)
  {
    StripPadded(l, s, r);
  }

  lemma LowerAllSpace(s: string)
    ensures AllSpace(Lower(s)) <==> AllSpace(s)
  {
    assert forall i :: 0 <= i < |s| ==> (IsSpace(Lower(s)[i]) <==> IsSpace(s[i]));
  }

  /** `doc.metadata.get("awards", "").lower()`: a missing key reads as the empty string. */
  function AwardsField(d: Doc): string {
    Lower(d.awards.GetOr(""))
  }

  /** The exact tier: the award occurs in the awards field or in the lower-cased content. */
  predicate ExactMatch(an: string, d: Doc) {
    Contains(AwardsField(d), an) || Contains(Lower(d.content), an)
  }

  /** The words of the awards field once every '|' is a space: `awards_str.replace("|", " ").split()`. */
  function FuzzyWords(d: Doc): seq<string> {
    Words(ReplaceChar(AwardsField(d), '|', ' '))
  }

  /** The fuzzy tier: some word scores strictly above the threshold with `fuzz.ratio`. */
  predicate FuzzyMatch(an: string, d: Doc, sim: Similarity, threshold: int) {
    var ws := FuzzyWords(d);
    exists i :: 0 <= i < |ws| && sim.fuzz(an, Strip(ws[i])) > threshold
  }

  /** The pieces of the awards field between '|' characters: `awards_str.split("|")`. */
  function DifflibPieces(d: Doc): (ps: seq<string>)
    ensures |ps| >= 1
  {
    SplitOn(AwardsField(d), "|")
  }

  /** The difflib tier, tried whenever the earlier tiers did not accept: some stripped piece has ratio above 0.7. */
  predicate DifflibMatch(an: string, d: Doc, sim: Similarity) {
    var ps := DifflibPieces(d);
    exists i :: 0 <= i < |ps| && sim.ratio(an, Strip(ps[i])) > 0.7
  }

  /** A document the filter keeps: exact, or fuzzy when fuzzywuzzy imported, or difflib. */
  predicate Accepted(an: string, sim: Similarity, threshold: int, d: Doc) {
    ExactMatch(an, d) || (sim.fuzzyAvailable && FuzzyMatch(an, d, sim, threshold)) || DifflibMatch(an, d, sim)
  }

  /** What `filter_by_award` returns. */
  function FilteredByAward(docs: seq<Doc>, award: string, sim: Similarity, cfg: Settings): seq<Doc> {
    var an := AwardNorm(award);
    Take(FirstPerId(Filter(docs, d => Accepted(an, sim, cfg.fuzzyThreshold, d))), cfg.finalK)
  }

  /** The filter loop: each document a tier accepts is kept, in order. */
  method FilterDocs(docs: seq<Doc>, an: string, sim: Similarity, threshold: int) returns (filtered: seq<Doc>)
    ensures filtered == Filter(docs, d => Accepted(an, sim, threshold, d))
  {
    filtered := [];
    for i := 0 to |docs|
      invariant filtered == Filter(docs[..i], d => Accepted(an, sim, threshold, d))
    {
      assert docs[..i + 1][..i] == docs[..i];
      var keep := AcceptDoc(an, docs[i], sim, threshold);
      if keep {
        filtered := filtered + [docs[i]];
      }
    }
    assert docs[..|docs|] == docs;
  }

  /** The body of the filter loop: the three tiers, each tried only when the earlier ones failed. */
  method AcceptDoc(an: string, doc: Doc, sim: Similarity, threshold: int) returns (keep: bool)
    ensures keep == Accepted(an, sim, threshold, doc)
  {
    var awardsStr := AwardsField(doc);
    var content := Lower(doc.content);
    if Contains(awardsStr, an) || Contains(content, an) {
      return true;
    }
    if sim.fuzzyAvailable {
      if FuzzyMatch(an, doc, sim, threshold) {
        return true;
      }
    }
    keep := DifflibMatch(an, doc, sim);
  }

  /** `filter_by_award`: filter, keep the first document per id, cut to `final_k`. */
  method FilterByAward(docs: seq<Doc>, award: string, sim: Similarity, cfg: Settings) returns (r: seq<Doc>)
    ensures r == FilteredByAward(docs, award, sim, cfg)
  {
    var an := AwardNorm(award);
    var filtered := FilterDocs(docs, an, sim, cfg.fuzzyThreshold);
    var unique := UniqueById(filtered);
    r := Take(unique, cfg.finalK);
  }

  /**
   * The filtered documents: at most `final_k`, distinct ids, in retrieval
   * order, each accepted by a tier.
   */
  lemma FilteredByAwardSelection(docs: seq<Doc>, award: string, sim: Similarity, cfg: Settings)
    ensures var an := AwardNorm(award);
      var r := FilteredByAward(docs, award, sim, cfg);
      && |r| <= cfg.finalK && UniqueIds(r) && IsSubsequence(r, docs)
      && (forall k :: 0 <= k < |r| ==> Accepted(an, sim, cfg.fuzzyThreshold, r[k]))
      && FirstOfEachId(r, Filter(docs, d => Accepted(an, sim, cfg.fuzzyThreshold, d)), cfg.finalK)
  {
    var an := AwardNorm(award);
    FilteredSelection(docs, d => Accepted(an, sim, cfg.fuzzyThreshold, d), cfg.finalK);
  }

  /** When every retrieved document passes a tier, the award filter keeps what the plain selection keeps. */
  lemma FilteredByAwardAllAccepted(docs: seq<Doc>, award: string, sim: Similarity, cfg: Settings)
    requires forall k :: 0 <= k < |docs| ==> Accepted(AwardNorm(award), sim, cfg.fuzzyThreshold, docs[k])
    ensures FilteredByAward(docs, award, sim, cfg) == Take(FirstPerId(docs), cfg.finalK)
  {
    var an := AwardNorm(award);
    FilterAll(docs, d => Accepted(an, sim, cfg.fuzzyThreshold, d));
  }

  /**
   * An award of blanks is truthy but normalises to "", which occurs in every
   * awards field, so the filter passes every document.
   */
  lemma BlankAwardAcceptsAll(docs: seq<Doc>, award: string, sim: Similarity, cfg: Settings)
    requires award != [] && AllSpace(award)
    ensures FilteredByAward(docs, award, sim, cfg) == Take(FirstPerId(docs), cfg.finalK)
  {
    var an := AwardNorm(award);
    assert an == [];
    forall k | 0 <= k < |docs| ensures Accepted(an, sim, cfg.fuzzyThreshold, docs[k]) {
      ContainsAt(AwardsField(docs[k]), an, 0);
    }
    FilteredByAwardAllAccepted(docs, award, sim, cfg);
  }

  // ---------------------------------------------------------------------
  // get_relevant_docs
  // ---------------------------------------------------------------------

  /**
   * What `get_relevant_docs` returns: the retriever is always asked about the
   * query; a truthy award filters the result, otherwise the first `final_k`
   * distinct-id documents are kept. `retrieve` stands for `retriever.invoke`.
   */
  function RelevantDocs(query: string, award: Option<string>, retrieve: string -> seq<Doc>,
                        sim: Similarity, cfg: Settings): seq<Doc>
  {
    var raw := retrieve(query);
    if award.Some? && award.value != [] then FilteredByAward(raw, award.value, sim, cfg)
    else Take(FirstPerId(raw), cfg.finalK)
  }

  method GetRelevantDocs(query: string, award: Option<string>, retrieve: string -> seq<Doc>,
                         sim: Similarity, cfg: Settings) returns (docs: seq<Doc>)
    ensures docs == RelevantDocs(query, award, retrieve, sim, cfg)
  {
    var raw := retrieve(query);
    if award.Some? && award.value != [] {
      docs := FilterByAward(raw, award.value, sim, cfg);
    } else {
      docs := FirstDistinct(raw, cfg.finalK);
    }
  }

  /**
   * The general-query loop: a document is kept when its id is new and fewer
   * than `k` are kept, so it stops growing at `k` but still scans the rest.
   */
  method FirstDistinct(raw: seq<Doc>, k: nat) returns (unique: seq<Doc>)
    ensures unique == Take(FirstPerId(raw), k)
  {
    var seen: set<string> := {};
    unique := [];
    for i := 0 to |raw|
      invariant unique == Take(FirstPerId(raw[..i]), k)
      invariant forall x :: x in seen <==> x in Ids(unique)
    {
      assert raw[..i + 1][..i] == raw[..i];
      TakeFirstPerIdStep(raw[..i], raw[i], k);
      var pid := raw[i].id;
      if pid !in seen && |unique| < k {
        IdsSnoc(unique, raw[i]);
        unique := unique + [raw[i]];
        seen := seen + {pid};
      }
    }
    assert raw[..|raw|] == raw;
  }

  /**
   * Both paths keep at most `final_k` documents with distinct ids, in the
   * order the retriever gave them for the query; with an award each passes
   * a tier, without one they are exactly the first per id.
   */
  lemma RelevantDocsSelection(query: string, award: Option<string>, retrieve: string -> seq<Doc>,
                              sim: Similarity, cfg: Settings)
    ensures var r := RelevantDocs(query, award, retrieve, sim, cfg);
      && |r| <= cfg.finalK && UniqueIds(r) && IsSubsequence(r, retrieve(query))
      && (award.Some? && award.value != [] ==>
            && (forall k :: 0 <= k < |r| ==> Accepted(AwardNorm(award.value), sim, cfg.fuzzyThreshold, r[k]))
            && FirstOfEachId(r, Filter(retrieve(query), d => Accepted(AwardNorm(award.value), sim, cfg.fuzzyThreshold, d)), cfg.finalK))
      && (award.None? || award.value == [] ==>
            r == Take(FirstPerId(retrieve(query)), cfg.finalK) && FirstOfEachId(r, retrieve(query), cfg.finalK))
  {
    if award.Some? && award.value != [] {
      FilteredByAwardSelection(retrieve(query), award.value, sim, cfg);
    } else {
      TakeFirstPerId(retrieve(query), cfg.finalK);
      TakeFirstOfEachId(retrieve(query), cfg.finalK);
    }
  }

  /** A blank award selects the same documents as no award at all. */
  lemma BlankAwardLikeNone(query: string, award: string, retrieve: string -> seq<Doc>, sim: Similarity, cfg: Settings)
    requires AllSpace(award)
    ensures RelevantDocs(query, Some(award), retrieve, sim, cfg) == RelevantDocs(query, None, retrieve, sim, cfg)
  {
    if award != [] {
      BlankAwardAcceptsAll(retrieve(query), award, sim, cfg);
    }
  }

  // ---------------------------------------------------------------------
  // format_context
  // ---------------------------------------------------------------------

  /** The snippet length `page_content[:500]`. */
  const SnippetLength: nat := 500

  /** One entry of the context; None when the document has no "awards" key. */
  function Section(d: Doc): Option<string> {
    match d.awards
    case None => None
    case Some(a) =>
      Some("Title: " + d.title + "\nID: " + d.id + "\nAwards: " + a + "\nSnippet: " + Take(d.content, SnippetLength) + "...")
  }

  /** `format_context`; None stands for the KeyError of a document without awards. */
  function FormatContext(docs: seq<Doc>): Option<string> {
    match AllSome(docs, Section)
    case None => None
    case Some(ss) => Some(Join(ss, "\n\n"))
  }

  /** Only the first 500 characters of a document's content reach the context. */
  lemma SectionIgnoresTail(d: Doc, e: Doc)
    requires d.id == e.id && d.title == e.title && d.awards == e.awards
    requires Take(d.content, SnippetLength) == Take(e.content, SnippetLength)
    ensures Section(d) == Section(e)
  {
  }

  /** A section is its fixed labels, the metadata, at most 500 characters of content and "...". */
  lemma SectionLength(d: Doc)
    requires d.awards.Some?
    ensures var s := Section(d).value;
      |s| <= 34 + |d.title| + |d.id| + |d.awards.value| + SnippetLength
      && (|d.content| >= SnippetLength ==> |s| == 34 + |d.title| + |d.id| + |d.awards.value| + SnippetLength)
  {
  }

  /** The sections in order, separated by blank lines; empty exactly when there are no documents. */
  lemma FormatContextShape(docs: seq<Doc>)
    requires forall k :: 0 <= k < |docs| ==> docs[k].awards.Some?
    ensures FormatContext(docs).Some?
    ensures FormatContext(docs) == Some("") <==> docs == []
  {
    if docs != [] {
      var ss := AllSome(docs, Section).value;
      assert Section(docs[0]) == Some(ss[0]);
      assert |ss[0]| > 0;
      JoinFirst(ss, "\n\n");
    }
  }

  /** One document without an "awards" key makes `format_context` fail. */
  lemma FormatContextMissingAwards(docs: seq<Doc>, k: nat)
    requires k < |docs| && docs[k].awards.None?
    ensures FormatContext(docs).None?
  {
  }

  /** The context `ask_assistant` hands to the prompt. */
  function AskContext(query: string, award: Option<string>, retrieve: string -> seq<Doc>,
                      sim: Similarity, cfg: Settings): Option<string>
  {
    FormatContext(RelevantDocs(query, award, retrieve, sim, cfg))
  }

  /** Without documents there is no context, and the prompt gets the empty string. */
  lemma AskContextEmpty(query: string, award: Option<string>, retrieve: string -> seq<Doc>, sim: Similarity, cfg: Settings)
    requires retrieve(query) == []
    ensures AskContext(query, award, retrieve, sim, cfg) == Some("")
  {
    RelevantDocsSelection(query, award, retrieve, sim, cfg);
    assert RelevantDocs(query, award, retrieve, sim, cfg) == [];
  }

  // ---------------------------------------------------------------------
  // The command-line loop
  // ---------------------------------------------------------------------

  /** One line read by the loop: leave it, or ask the question with the parsed award. */
  datatype Command = Quit | Ask(question: string, award: Option<string>)

  const QuitWords: seq<string> := ["quit", "exit", "q"]

  /** `input("Ask: ").strip()`, the quit test on its lower case, and the `tag "…"` search. */
  function ReadCommand(line: string): (c: Command)
    ensures c.Quit? <==> Lower(Strip(line)) in QuitWords
    ensures c.Ask? ==> c.question == Strip(line) && c.award == SearchTag(Strip(line))
    ensures c.Ask? ==> Trimmed(c.question) && |c.question| <= |line|
    ensures c.Ask? && c.award.Some? ==> c.award.value != [] && forall k :: 0 <= k < |c.award.value| ==> !IsQuote(c.award.value[k])
  {
    var input := Strip(line);
    if Lower(input) in QuitWords then Quit
    else
      Ask(input, SearchTag(input))
  }

  /** The leftmost `tag "…"` of the stripped line is the award asked about. */
  lemma ReadCommandTag(line: string, i: nat, q: nat, g: string)
    requires Lower(Strip(line)) !in QuitWords
    requires TagShape(Strip(line), i, q, g)
    requires forall k: nat :: k < i ==> TagMatchAt(Strip(line), k).None?
    ensures ReadCommand(line) == Ask(Strip(line), Some(g))
  {
    TagMatchComplete(Strip(line), i, q, g);
  }

  /** A line that is not a quit word and holds no `tag "…"` asks the stripped line with no award. */
  lemma ReadCommandPlain(line: string)
    requires Lower(Strip(line)) !in QuitWords
    requires forall i: nat, q: nat, g :: !TagShape(Strip(line), i, q, g)
    ensures ReadCommand(line) == Ask(Strip(line), None)
  {
    SearchTagShape(Strip(line));
  }
}

/**
 * The award helpers of the final Playwright scraper
 * (scrape_readytensor_final.py): a wider keyword test, a case-preserving
 * normaliser that strips one leading "winner of" / "award(ed)" /
 * "recipient of" and collapses whitespace, and the extractor over the
 * description's cue matches.
 */
module ScrapeFinal {
  import opened Wrappers
  import opened Text
  import opened Lists

  /** AWARD_KEYWORDS, including the generic "winner", "award", "challenge" and "hackathon". */
  const Keywords: seq<string> := [
    "best overall project",
    "best technical implementation",
    "most innovative project",
    "most engaging presentation",
    "outstanding solution implementation",
    "most promising innovation",
    "best ai tool innovation",
    "distinguished applied solution showcase",
    "distinguished technical deep-dive",
    "distinguished social impact innovation",
    "best creative ai project",
    "ai research excellence",
    "distinguished implementation guide",
    "excellence in educational content",
    "exceptional dataset contribution",
    "winner",
    "award",
    "challenge",
    "hackathon"
  ]

  /** `matches_award(text)`: a keyword occurs in the lower-cased text; empty text never matches. */
  function MatchesAward(text: string): (b: bool)
    ensures b <==> text != [] && exists k :: k in Keywords && Contains(Lower(text), k)
  {
    text != [] && ContainsAny(Lower(text), Keywords)
  }

  /** The generic keywords make any text that holds them match. */
  lemma MatchesGeneric(text: string, k: string)
    requires k == "winner" || k == "award" || k == "challenge" || k == "hackathon"
    requires Contains(Lower(text), k)
    ensures MatchesAward(text)
  {
    var i := ContainsWitness(Lower(text), k);
    assert |Lower(text)| >= |k| > 0;
    assert k == Keywords[15] || k == Keywords[16] || k == Keywords[17] || k == Keywords[18];
  }

  // ---------------------------------------------------------------------
  // normalize_award_phrase
  // ---------------------------------------------------------------------

  /**
   * The alternatives of `^(winner of|award(ed)?|recipient of)`, in the order
   * the engine tries them: the greedy `(ed)?` tries "awarded" before "award".
   */
  const Prefixes: seq<string> := ["winner of", "awarded", "award", "recipient of"]

  /** `s` starts with `p` when case is ignored (`re.IGNORECASE` on ASCII letters). */
  predicate StartsWithIgnoreCase(s: string, p: string) {
    |p| <= |s| && Lower(s[..|p|]) == p
  }

  /** The position of the first alternative of `ps` that `s` starts with, or `|ps|` when none does. */
  function PrefixIndex(s: string, ps: seq<string>): (r: nat)
    ensures r <= |ps|
    ensures r < |ps| ==> StartsWithIgnoreCase(s, ps[r])
    ensures forall l :: 0 <= l < r ==> !StartsWithIgnoreCase(s, ps[l])
  {
    if ps == [] then 0
    else if StartsWithIgnoreCase(s, ps[0]) then 0
    else
      var r := PrefixIndex(s, ps[1..]);
      assert forall l :: 0 < l < |ps| ==> ps[l] == ps[1..][l - 1];
      1 + r
  }

  /** How much of `s` the prefix alternatives remove: the first one that matches, or nothing. */
  function PrefixLength(s: string): (n: nat)
    ensures n <= |s|
  {
    var r := PrefixIndex(s, Prefixes);
    if r < |Prefixes| then |Prefixes[r]| else 0
  }

  /**
   * `normalize_award_phrase`: None for an empty phrase; otherwise the
   * stripped phrase without one leading prefix and the whitespace after it,
   * with whitespace runs collapsed to one space, stripped again. Case is kept.
   */
  function NormalizeAwardPhrase(phrase: string): (r: Option<string>)
    ensures r.None? <==> phrase == []
    ensures r.Some? ==> Trimmed(r.value) && SingleSpaced(r.value) && |r.value| <= |phrase|
    ensures r.Some? ==> forall i :: 0 <= i < |r.value| && !IsSpace(r.value[i]) ==> r.value[i] in phrase
    ensures r.Some? ==> Words(r.value) == Words(Strip(phrase)[PrefixLength(Strip(phrase))..])
  {
    if phrase == [] then None
    else
      var s := Strip(phrase);
      var t := StripLeft(s[PrefixLength(s)..]);
      NormalizeFacts(phrase, s, t);
      PhraseWords(s[PrefixLength(s)..], t);
      Some(Strip(CollapseSpaces(t)))
  }

  /** Collapsing and stripping what follows the prefix keeps its words. */
  lemma PhraseWords(u: string, t: string)
    requires t == StripLeft(u)
    ensures Words(Strip(CollapseSpaces(t))) == Words(u)
  {
    WordsStrip(CollapseSpaces(t));
    WordsStrip(u);
  }

  /** What follows the prefix is a suffix of the stripped phrase. */
  lemma AfterPrefix(s: string, n: nat, t: string)
    requires n <= |s| && t == StripLeft(s[n..])
    ensures |t| <= |s| && t == s[|s| - |t|..]
  {
    SuffixOfSuffix(s, n, s[n..], t);
  }

  lemma SuffixOfSuffix(s: string, n: nat, u: string, t: string)
    requires n <= |s| && u == s[n..] && |t| <= |u| && t == u[|u| - |t|..]
    ensures t == s[|s| - |t|..]
  {
    assert u[|u| - |t|..] == s[|s| - |t|..];
  }

  /** The text after the prefix is trimmed already, so the final strip changes nothing. */
  lemma NormalizeFacts(phrase: string, s: string, t: string)
    requires s == Strip(phrase) && t == StripLeft(s[PrefixLength(s)..])
    ensures var c := CollapseSpaces(t);
      Strip(c) == c && |c| <= |phrase| && forall i :: 0 <= i < |c| && !IsSpace(c[i]) ==> c[i] in phrase
  {
    AfterPrefix(s, PrefixLength(s), t);
    assert Trimmed(t) by {
      if t != [] { assert t[|t| - 1] == s[|s| - 1]; }
    }
    CollapseTrimmed(t);
    SuffixChars(phrase, s, t);
  }

  lemma SuffixChars(phrase: string, s: string, t: string)
    requires CharsFrom(s, phrase) && |t| <= |s| && t == s[|s| - |t|..]
    ensures var c := CollapseSpaces(t); forall i :: 0 <= i < |c| && !IsSpace(c[i]) ==> c[i] in phrase
  {
    var c := CollapseSpaces(t);
    forall i | 0 <= i < |c| && !IsSpace(c[i]) ensures c[i] in phrase {
      var j :| 0 <= j < |t| && t[j] == c[i];
      assert t[j] == s[|s| - |t| + j];
    }
  }

  /** A prefix and one space in front of a clean name are removed, whatever the prefix's case. */
  lemma NormalizeRemovesPrefix(p: string, name: string)
    requires Lower(p) in Prefixes
    requires name != [] && Trimmed(name) && SingleSpaced(name)
    ensures NormalizeAwardPhrase(p + " " + name) == Some(name)
  {
    var phrase := p + " " + name;
    PhraseTrimmed(p, name);
    PrefixOfPhrase(p, name);
    AfterSpace(p, name);
    NormalizeAfterPrefix(phrase, |p|, name);
  }

  lemma NormalizeAfterPrefix(phrase: string, n: nat, name: string)
    requires phrase != [] && Strip(phrase) == phrase && PrefixLength(phrase) == n
    requires n <= |phrase| && phrase[n..] == [' '] + name
    requires name != [] && Trimmed(name) && SingleSpaced(name)
    ensures NormalizeAwardPhrase(phrase) == Some(name)
  {
    StripLeftSpaces([' '], name);
    CollapseSingleSpaced(name);
  }

  lemma AfterSpace(p: string, name: string)
    ensures (p + " " + name)[|p|..] == [' '] + name
  {
  }

  lemma PhraseTrimmed(p: string, name: string)
    requires Lower(p) in Prefixes
    requires name != [] && Trimmed(name)
    ensures Trimmed(p + " " + name)
  {
    var phrase := p + " " + name;
    assert LowerChar(p[0]) == Lower(p)[0];
    assert phrase[0] == p[0] && phrase[|phrase| - 1] == name[|name| - 1];
  }

  /** The alternative that matches first is the prefix itself. */
  lemma PrefixOfPhrase(p: string, name: string)
    requires Lower(p) in Prefixes && name != []
    ensures PrefixLength(p + " " + name) == |p|
  {
    var s := p + " " + name;
    var lp := Lower(p);
    var k := if lp == Prefixes[0] then 0 else if lp == Prefixes[1] then 1 else if lp == Prefixes[2] then 2 else 3;
    assert Prefixes[k] == lp;
    assert s[..|p|] == p;
    assert StartsWithIgnoreCase(s, Prefixes[k]);
    forall l | 0 <= l < k ensures !StartsWithIgnoreCase(s, Prefixes[l]) {
      NoEarlierPrefix(p, name, k, l);
    }
    var r := PrefixIndex(s, Prefixes);
    assert r <= k;
    assert r == k;
  }

  lemma NoEarlierPrefix(p: string, name: string, k: nat, l: nat)
    requires k < |Prefixes| && Lower(p) == Prefixes[k] && l < k
    ensures !StartsWithIgnoreCase(p + " " + name, Prefixes[l])
  {
    var s := p + " " + name;
    var q := Prefixes[l];
    if |q| <= |s| {
      assert Lower(s[..|q|])[0] == LowerChar(p[0]) == Lower(p)[0];
      if l == 1 && k == 2 {
        assert Lower(s[..|q|])[5] == LowerChar(s[5]) == ' ';
        assert q[5] == 'e';
      } else {
        assert q[0] != Prefixes[k][0];
      }
    }
  }

  /** A phrase already trimmed and single spaced, without a prefix, comes back unchanged, case and all. */
  lemma NormalizeKeeps(phrase: string)
    requires phrase != [] && Trimmed(phrase) && SingleSpaced(phrase)
    requires forall j :: 0 <= j < |Prefixes| ==> !StartsWithIgnoreCase(phrase, Prefixes[j])
    ensures NormalizeAwardPhrase(phrase) == Some(phrase)
  {
    assert PrefixLength(phrase) == 0;
    assert phrase[0..] == phrase;
    CollapseSingleSpaced(phrase);
  }

  // ---------------------------------------------------------------------
  // extract_awards
  // ---------------------------------------------------------------------

  /** A normalised phrase, if the loop keeps it (`if normalized and ...`). */
  function Accept(phrase: string): (r: Option<string>)
    ensures r.Some? ==> r.value != [] && Trimmed(r.value) && SingleSpaced(r.value)
  {
    var n := NormalizeAwardPhrase(phrase);
    if n.Some? && n.value != [] then n else None
  }

  /**
   * What `extract_awards` returns for a description whose cue-pattern
   * matches (group 1 of each `re.findall` result) are `captures`.
   */
  function ExtractedAwards(description: Option<string>, captures: seq<string>): seq<string> {
    if description.None? || description.value == [] then []
    else AddNew([], Map(captures, Accept))
  }

  method ExtractAwards(description: Option<string>, captures: seq<string>) returns (awards: seq<string>)
    ensures awards == ExtractedAwards(description, captures)
  {
    awards := [];
    if description.None? || description.value == [] {
      return;
    }
    awards := AddAll(awards, captures, Accept);
  }

  /** The extracted names are distinct, in the order the captures first yield them. */
  lemma ExtractedAwardsOrder(description: string, captures: seq<string>)
    requires description != []
    ensures var r := ExtractedAwards(Some(description), captures);
      NoDuplicates(r) && InFirstOccurrenceOrder(r, Present(Map(captures, Accept)))
  {
    var xs := Map(captures, Accept);
    AddNewDedup(xs);
    DedupOrder(Present(xs));
  }

  /** The extracted names are non-empty, trimmed and single spaced. */
  lemma ExtractedAwardsShape(description: string, captures: seq<string>)
    requires description != []
    ensures var r := ExtractedAwards(Some(description), captures);
      forall i :: 0 <= i < |r| ==> r[i] != [] && Trimmed(r[i]) && SingleSpaced(r[i])
  {
    var r := AddNew([], Map(captures, Accept));
    forall i | 0 <= i < |r| ensures r[i] != [] && Trimmed(r[i]) && SingleSpaced(r[i]) {
      var j := AddNewSource(captures, Accept, i);
    }
  }

  /** A name is extracted exactly when some capture normalises to it. */
  lemma ExtractedAwardsMembers(description: string, captures: seq<string>, a: string)
    requires description != []
    ensures a in ExtractedAwards(Some(description), captures) <==>
      a != [] && exists i :: 0 <= i < |captures| && NormalizeAwardPhrase(captures[i]) == Some(a)
  {
    AddNewMembers(captures, Accept, a);
    forall i | 0 <= i < |captures|
      ensures Accept(captures[i]) == Some(a) <==> a != [] && NormalizeAwardPhrase(captures[i]) == Some(a)
    {
    }
  }

  /** No description, or an empty one, gives no awards whatever the captures. */
  lemma ExtractedAwardsNone(description: Option<string>, captures: seq<string>)
    requires description.None? || description.value == []
    ensures ExtractedAwards(description, captures) == []
  {
  }
}

/**
 * The award cue both front ends look for in a user's question: the first
 * group of a case-insensitive regular-expression search for "tag" in any
 * case, optional whitespace, a quote, one or more characters that are not
 * quotes (the captured award), and a closing quote. Either quote character
 * may open or close.
 */
module TagQuery {
  import opened Wrappers
  import opened Text

  predicate IsQuote(c: char) { c == '\'' || c == '"' }

  /** The length of the run of whitespace starting at `i`. */
  function SpaceRun(s: string, i: nat): (n: nat)
    requires i <= |s|
    ensures i + n <= |s|
    ensures forall j :: i <= j < i + n ==> IsSpace(s[j])
    ensures i + n < |s| ==> !IsSpace(s[i + n])
    decreases |s| - i
  {
    if i == |s| || !IsSpace(s[i]) then 0 else 1 + SpaceRun(s, i + 1)
  }

  /** The length of the run of non-quote characters starting at `i`. */
  function QuoteFreeRun(s: string, i: nat): (n: nat)
    requires i <= |s|
    ensures i + n <= |s|
    ensures forall j :: i <= j < i + n ==> !IsQuote(s[j])
    ensures i + n < |s| ==> IsQuote(s[i + n])
    decreases |s| - i
  {
    if i == |s| || IsQuote(s[i]) then 0 else 1 + QuoteFreeRun(s, i + 1)
  }

  /** "tag", ignoring case, at position `i`. */
  predicate TagWordAt(s: string, i: nat) {
    i + 3 <= |s| && Lower(s[i..i + 3]) == "tag"
  }

  /**
   * The pattern matched starting exactly at `i`, and its captured group.
   * Greedy `\s*` stops only at a non-space, and `[^'"]+` only at a quote or
   * the end, so backtracking never yields another match.
   */
  function TagMatchAt(s: string, i: nat): (r: Option<string>)
    ensures r.Some? ==> r.value != [] && forall j :: 0 <= j < |r.value| ==> !IsQuote(r.value[j])
  {
    if !TagWordAt(s, i) then None
    else
      var q := i + 3 + SpaceRun(s, i + 3);
      if q == |s| || !IsQuote(s[q]) then None
      else
        var n := QuoteFreeRun(s, q + 1);
        if n == 0 || q + 1 + n == |s| then None
        else Some(s[q + 1..q + 1 + n])
  }

  /**
   * The text of the pattern, stated directly: "tag", whitespace up to the
   * opening quote at `q`, the non-empty quote-free group `g`, a closing quote.
   */
  ghost predicate TagShape(s: string, i: nat, q: nat, g: string) {
    && TagWordAt(s, i) && i + 3 <= q && q + 1 + |g| < |s|
    && (forall j :: i + 3 <= j < q ==> IsSpace(s[j]))
    && IsQuote(s[q])
    && g != [] && s[q + 1..q + 1 + |g|] == g
    && (forall j :: 0 <= j < |g| ==> !IsQuote(g[j]))
    && IsQuote(s[q + 1 + |g|])
  }

  lemma TagMatchSound(s: string, i: nat)
    requires TagMatchAt(s, i).Some?
    ensures exists q: nat :: TagShape(s, i, q, TagMatchAt(s, i).value)
  {
    var q := i + 3 + SpaceRun(s, i + 3);
    assert TagShape(s, i, q, TagMatchAt(s, i).value);
  }

  lemma TagMatchComplete(s: string, i: nat, q: nat, g: string)
    requires TagShape(s, i, q, g)
    ensures TagMatchAt(s, i) == Some(g)
  {
    var n := SpaceRun(s, i + 3);
    assert !IsSpace(s[q]);
    assert i + 3 + n < |s| ==> !IsSpace(s[i + 3 + n]);
    assert i + 3 + n == q;
    var m := QuoteFreeRun(s, q + 1);
    assert forall j :: 0 <= j < |g| ==> s[q + 1 + j] == g[j];
    assert IsQuote(s[q + 1 + |g|]);
    assert q + 1 + m < |s| ==> IsQuote(s[q + 1 + m]);
    assert m == |g|;
  }

  /** The leftmost position at or after `i` where the pattern matches. */
  function FindTag(s: string, i: nat): (r: Option<nat>)
    ensures r.Some? ==> i <= r.value && TagMatchAt(s, r.value).Some?
    ensures r.Some? ==> forall k: nat :: i <= k < r.value ==> TagMatchAt(s, k).None?
    ensures r.None? ==> forall k: nat :: i <= k ==> TagMatchAt(s, k).None?
    decreases |s| - i
  {
    if i >= |s| then None
    else if TagMatchAt(s, i).Some? then Some(i)
    else FindTag(s, i + 1)
  }

  /** `m.group(1)` of `re.search(...)`, or None when there is no match. */
  function SearchTag(s: string): (r: Option<string>)
    ensures r.Some? ==> exists i: nat ::
      TagMatchAt(s, i) == r && forall k: nat :: k < i ==> TagMatchAt(s, k).None?
    ensures r.None? ==> forall i: nat :: TagMatchAt(s, i).None?
  {
    match FindTag(s, 0)
    case Some(i) => TagMatchAt(s, i)
    case None => None
  }

  /** A search that finds something finds text of the pattern's shape. */
  lemma SearchTagShape(s: string)
    ensures SearchTag(s).Some? ==> exists i: nat, q: nat, g :: TagShape(s, i, q, g)
  {
    if SearchTag(s).Some? {
      var i: nat :| TagMatchAt(s, i) == SearchTag(s);
      TagMatchSound(s, i);
    }
  }

  /** A capture is found wherever the pattern's text occurs. */
  lemma SearchTagFinds(s: string, i: nat, q: nat, g: string)
    requires TagShape(s, i, q, g)
    ensures SearchTag(s).Some?
  {
    TagMatchComplete(s, i, q, g);
  }
}

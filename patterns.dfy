/**
 * The two regular-expression shapes the normalisers use with a list of
 * alternatives between word boundaries: searching for any alternative as a
 * whole word (`WordSearch`) and deleting every such occurrence, left to
 * right and without overlap (`RemoveWords`). Every alternative in the project begins and ends with a word character, so
 * `\b` before it means "at the start or after a non-word character" and `\b`
 * after it means "at the end or before a non-word character".
 */
module Patterns {
  import opened Wrappers
  import opened Text

  /** An alternative that begins and ends with a word character. */
  predicate Wordy(w: string) { w != [] && IsWordChar(w[0]) && IsWordChar(w[|w| - 1]) }

  /** `\bw\b` matches `s` at position `i`. */
  predicate WholeWordAt(s: string, i: nat, w: string) {
    && i + |w| <= |s| && s[i..i + |w|] == w
    && (i == 0 || !IsWordChar(s[i - 1]))
    && (i + |w| == |s| || !IsWordChar(s[i + |w|]))
  }

  /** Some alternative matches at position `i`. */
  function AnyWordAt(s: string, i: nat, ws: seq<string>): (b: bool)
    ensures b <==> exists w :: w in ws && WholeWordAt(s, i, w)
  {
    if ws == [] then false else WholeWordAt(s, i, ws[0]) || AnyWordAt(s, i, ws[1..])
  }

  /** Some alternative matches at some position at or after `i`. */
  function SearchFrom(s: string, ws: seq<string>, i: nat): (b: bool)
    ensures b <==> exists j: nat, w :: i <= j && w in ws && WholeWordAt(s, j, w)
    decreases |s| + 1 - i
  {
    if i > |s| then false else AnyWordAt(s, i, ws) || SearchFrom(s, ws, i + 1)
  }

  /** `re.search(r"\b(w1|...|wn)\b", s) is not None`. */
  predicate WordSearch(s: string, ws: seq<string>) {
    SearchFrom(s, ws, 0)
  }

  /** The first alternative, in list order, that matches at position `i` (the regex engine's choice). */
  function FirstWordAt(s: string, i: nat, ws: seq<string>): (r: Option<nat>)
    ensures r.Some? ==> r.value < |ws| && WholeWordAt(s, i, ws[r.value])
    ensures r.Some? ==> forall k :: 0 <= k < r.value ==> !WholeWordAt(s, i, ws[k])
    ensures r.None? ==> forall k :: 0 <= k < |ws| ==> !WholeWordAt(s, i, ws[k])
  {
    if ws == [] then None
    else if WholeWordAt(s, i, ws[0]) then Some(0)
    else match FirstWordAt(s, i, ws[1..])
      case None => None
      case Some(k) => Some(k + 1)
  }

  /**
   * `re.sub(r"\b(w1|...|wn)\b", "", s)` scanned from position `i`: at each
   * position the first matching alternative is deleted and the scan resumes
   * after it; otherwise the character is kept. Boundaries are always judged on
   * the original text.
   */
  function RemoveWordsFrom(s: string, ws: seq<string>, i: nat): (r: string)
    ensures i <= |s| ==> |r| <= |s| - i
    decreases |s| - i
  {
    if i >= |s| then []
    else
      var n := MatchLength(s, ws, i);
      if n > 0 then RemoveWordsFrom(s, ws, i + n)
      else [s[i]] + RemoveWordsFrom(s, ws, i + 1)
  }

  /** The length of the first alternative, in list order, that matches at `i`; 0 when none does. */
  function MatchLength(s: string, ws: seq<string>, i: nat): (n: nat)
    ensures n > 0 ==> i + n <= |s|
  {
    if ws == [] then 0
    else if WholeWordAt(s, i, ws[0]) then |ws[0]|
    else MatchLength(s, ws[1..], i)
  }

  /** The removal is guided by the regex engine's choice of alternative. */
  lemma {:induction false} MatchLengthFirstWord(s: string, ws: seq<string>, i: nat)
    ensures MatchLength(s, ws, i) == match FirstWordAt(s, i, ws) case Some(k) => |ws[k]| case None => 0
  {
    if ws != [] && !WholeWordAt(s, i, ws[0]) {
      MatchLengthFirstWord(s, ws[1..], i);
    }
  }

  /** The length is that of `ws[k]` when it matches at `i` and no earlier alternative does. */
  lemma {:induction false} MatchLengthIs(s: string, ws: seq<string>, i: nat, k: nat)
    requires k < |ws| && WholeWordAt(s, i, ws[k])
    requires forall k' :: 0 <= k' < k ==> !WholeWordAt(s, i, ws[k'])
    ensures MatchLength(s, ws, i) == |ws[k]|
  {
    if k > 0 {
      assert !WholeWordAt(s, i, ws[0]);
      assert forall k' :: 0 <= k' < k - 1 ==> ws[1..][k'] == ws[k' + 1];
      MatchLengthIs(s, ws[1..], i, k - 1);
    }
  }

  /** The length is 0 when no alternative matches at `i`. */
  lemma {:induction false} MatchLengthNone(s: string, ws: seq<string>, i: nat)
    requires forall w :: w in ws ==> !WholeWordAt(s, i, w)
    ensures MatchLength(s, ws, i) == 0
  {
    if ws != [] {
      assert ws[0] in ws;
      assert forall w :: w in ws[1..] ==> w in ws;
      MatchLengthNone(s, ws[1..], i);
    }
  }

  /** Every character the scan keeps comes from `s`. */
  lemma {:induction false} RemoveWordsFromChars(s: string, ws: seq<string>, i: nat)
    ensures CharsFrom(RemoveWordsFrom(s, ws, i), s)
    decreases |s| - i
  {
    if i < |s| {
      var n := MatchLength(s, ws, i);
      if n > 0 {
        RemoveWordsFromSkips(s, ws, i, n);
        RemoveWordsFromChars(s, ws, i + n);
      } else {
        RemoveWordsFromKeeps(s, ws, i);
        RemoveWordsFromChars(s, ws, i + 1);
        var t := RemoveWordsFrom(s, ws, i + 1);
        assert forall j :: 0 <= j < |t| ==> ([s[i]] + t)[j + 1] == t[j];
      }
    }
  }

  /**
   * The removal: RemoveWordsKeep and RemoveWordsCut say that a stretch
   * without a match is kept and that the first matching alternative is cut.
   */
  function RemoveWords(s: string, ws: seq<string>): (r: string)
    ensures |r| <= |s| && CharsFrom(r, s)
    ensures !WordSearch(s, ws) ==> r == s
  {
    RemoveWordsUnmatched(s, ws);
    RemoveWordsFromChars(s, ws, 0);
    RemoveWordsFrom(s, ws, 0)
  }

  lemma RemoveWordsUnmatched(s: string, ws: seq<string>)
    ensures !WordSearch(s, ws) ==> RemoveWordsFrom(s, ws, 0) == s
  {
    if !WordSearch(s, ws) {
      RemoveWordsKeep(s, ws, 0, |s|);
      assert s[0..|s|] == s;
    }
  }

  /** The scan keeps `s[i]` when no alternative matches there. */
  lemma RemoveWordsFromKeeps(s: string, ws: seq<string>, i: nat)
    requires i < |s| && MatchLength(s, ws, i) == 0
    ensures RemoveWordsFrom(s, ws, i) == [s[i]] + RemoveWordsFrom(s, ws, i + 1)
  {
  }

  /** The scan skips the `n` characters of the alternative matched at `i`. */
  lemma RemoveWordsFromSkips(s: string, ws: seq<string>, i: nat, n: nat)
    requires i < |s| && n == MatchLength(s, ws, i) && n > 0
    ensures RemoveWordsFrom(s, ws, i) == RemoveWordsFrom(s, ws, i + n)
  {
  }

  /** A stretch `s[i..m]` where no alternative matches is kept as it is. */
  lemma {:induction false} RemoveWordsKeep(s: string, ws: seq<string>, i: nat, m: nat)
    requires i <= m <= |s|
    requires forall j: nat, w :: i <= j < m && w in ws ==> !WholeWordAt(s, j, w)
    ensures RemoveWordsFrom(s, ws, i) == s[i..m] + RemoveWordsFrom(s, ws, m)
    decreases m - i
  {
    if i < m {
      MatchLengthNone(s, ws, i);
      RemoveWordsFromKeeps(s, ws, i);
      RemoveWordsKeep(s, ws, i + 1, m);
      KeepConcat(s, i, m, RemoveWordsFrom(s, ws, m));
    }
  }

  lemma KeepConcat(s: string, i: nat, m: nat, t: string)
    requires i < m <= |s|
    ensures [s[i]] + (s[i + 1..m] + t) == s[i..m] + t
  {
    assert s[i..m] == [s[i]] + s[i + 1..m];
  }

  /** The first alternative, in list order, that matches at `i` is deleted and the scan resumes after it. */
  lemma RemoveWordsCut(s: string, ws: seq<string>, i: nat, k: nat)
    requires k < |ws| && ws[k] != [] && WholeWordAt(s, i, ws[k])
    requires forall k' :: 0 <= k' < k ==> !WholeWordAt(s, i, ws[k'])
    ensures RemoveWordsFrom(s, ws, i) == RemoveWordsFrom(s, ws, i + |ws[k]|)
  {
    MatchLengthIs(s, ws, i, k);
    RemoveWordsFromSkips(s, ws, i, |ws[k]|);
  }

  /**
   * When `s[..i]` holds no match and `ws[k]` is the first alternative that
   * matches at `i`, the result keeps `s[..i]`, drops the match and goes on
   * after it.
   */
  lemma RemoveWordsFirstMatch(s: string, ws: seq<string>, i: nat, k: nat)
    requires k < |ws| && ws[k] != [] && WholeWordAt(s, i, ws[k])
    requires forall k' :: 0 <= k' < k ==> !WholeWordAt(s, i, ws[k'])
    requires forall j: nat, w :: j < i && w in ws ==> !WholeWordAt(s, j, w)
    ensures RemoveWords(s, ws) == s[..i] + RemoveWordsFrom(s, ws, i + |ws[k]|)
  {
    RemoveWordsKeep(s, ws, 0, i);
    RemoveWordsCut(s, ws, i, k);
  }

  /** When the only whole-word match in `s` is alternative `k` at `i`, removal cuts exactly that occurrence. */
  lemma RemoveWordsSingle(s: string, ws: seq<string>, i: nat, k: nat)
    requires k < |ws| && ws[k] != [] && WholeWordAt(s, i, ws[k])
    requires forall k' :: 0 <= k' < k ==> !WholeWordAt(s, i, ws[k'])
    requires forall j: nat, w :: j < i && w in ws ==> !WholeWordAt(s, j, w)
    requires forall j: nat, w :: i + |ws[k]| <= j < |s| && w in ws ==> !WholeWordAt(s, j, w)
    ensures RemoveWords(s, ws) == s[..i] + s[i + |ws[k]|..]
  {
    var e := i + |ws[k]|;
    RemoveWordsFirstMatch(s, ws, i, k);
    RemoveWordsRest(s, ws, e);
  }

  /** No whole-word match from `e` on: the rest is copied. */
  lemma RemoveWordsRest(s: string, ws: seq<string>, e: nat)
    requires e <= |s|
    requires forall j: nat, w :: e <= j < |s| && w in ws ==> !WholeWordAt(s, j, w)
    ensures RemoveWordsFrom(s, ws, e) == s[e..]
  {
    RemoveWordsKeep(s, ws, e, |s|);
    RemoveWordsFromEnd(s, ws);
    assert s[e..|s|] + [] == s[e..];
  }

  lemma RemoveWordsFromEnd(s: string, ws: seq<string>)
    ensures RemoveWordsFrom(s, ws, |s|) == []
  {
  }

  /** No alternative matches where the character there begins none of them. */
  lemma NoMatchByFirst(s: string, ws: seq<string>, firsts: set<char>, i: nat, m: nat)
    requires m <= |s|
    requires forall k :: 0 <= k < |ws| ==> ws[k] != [] && ws[k][0] in firsts
    requires forall j :: i <= j < m ==> s[j] !in firsts
    ensures forall j: nat, w :: i <= j < m && w in ws ==> !WholeWordAt(s, j, w)
  {
    forall j: nat, w | i <= j < m && w in ws ensures !WholeWordAt(s, j, w) {
      var k :| 0 <= k < |ws| && ws[k] == w;
      if j + |w| <= |s| {
        assert s[j..j + |w|][0] == s[j];
      }
    }
  }

  /** An alternative holding a character that `s` lacks matches nowhere in `s`. */
  lemma AbsentWord(s: string, w: string, i: nat)
    requires i < |w| && forall j :: 0 <= j < |s| ==> s[j] != w[i]
    ensures forall j: nat :: !WholeWordAt(s, j, w)
  {
    forall j: nat ensures !WholeWordAt(s, j, w) {
      if j + |w| <= |s| {
        assert s[j..j + |w|][i] == s[j + i];
      }
    }
  }

  /**
   * No alternative matches when each holds, at position `at[k]`, one of the
   * characters `absent` that `s` lacks.
   */
  lemma NoWordSearch(s: string, ws: seq<string>, absent: set<char>, at: seq<nat>)
    requires forall j :: 0 <= j < |s| ==> s[j] !in absent
    requires |at| == |ws|
    requires forall k :: 0 <= k < |ws| ==> at[k] < |ws[k]| && ws[k][at[k]] in absent
    ensures !WordSearch(s, ws)
  {
    forall j: nat, w | w in ws ensures !WholeWordAt(s, j, w) {
      var k :| 0 <= k < |ws| && ws[k] == w;
      AbsentWord(s, w, at[k]);
    }
  }
}

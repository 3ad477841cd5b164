/**
 * Python string builtins used by the award code, on ASCII text: character
 * classes as `str.isspace`, `str.isdigit` and the regex classes `\s`, `\d`,
 * `\w` see them, and `lower`, `strip`, `split`, `join`, `in`, `startswith`,
 * `endswith`, and `re.sub(r"\s+", " ", s)`.
 */
module Text {
  import opened Wrappers

  // ---------------------------------------------------------------------
  // Characters
  // ---------------------------------------------------------------------

  /** ASCII whitespace: space, \t \n \v \f \r and the separators \x1c..\x1f. */
  predicate IsSpace(c: char) {
    c == ' ' || ('\t' <= c <= '\r') || ('\U{1C}' <= c <= '\U{1F}')
  }

  predicate IsDigit(c: char) { '0' <= c <= '9' }

  predicate IsUpper(c: char) { 'A' <= c <= 'Z' }

  predicate IsLetter(c: char) { IsUpper(c) || 'a' <= c <= 'z' }

  /** The regex class `\w` on ASCII. */
  predicate IsWordChar(c: char) { IsLetter(c) || IsDigit(c) || c == '_' }

  function LowerChar(c: char): (d: char)
    ensures !IsUpper(d)
    ensures !IsUpper(c) ==> d == c
    ensures IsSpace(d) == IsSpace(c) && IsDigit(d) == IsDigit(c) && IsWordChar(d) == IsWordChar(c)
  {
    if IsUpper(c) then (c as int + 32) as char else c
  }

  // ---------------------------------------------------------------------
  // Predicates on strings
  // ---------------------------------------------------------------------

  predicate NoUpper(s: string) { forall i :: 0 <= i < |s| ==> !IsUpper(s[i]) }

  predicate HasDigit(s: string) { exists i :: 0 <= i < |s| && IsDigit(s[i]) }

  predicate AllSpace(s: string) { forall i :: 0 <= i < |s| ==> IsSpace(s[i]) }

  /** No leading and no trailing whitespace. */
  predicate Trimmed(s: string) { s == [] || (!IsSpace(s[0]) && !IsSpace(s[|s| - 1])) }

  /** Every whitespace character is a plain space and no two are adjacent. */
  predicate SingleSpaced(s: string) {
    && (forall i :: 0 <= i < |s| && IsSpace(s[i]) ==> s[i] == ' ')
    && (forall i :: 0 <= i < |s| - 1 ==> !(IsSpace(s[i]) && IsSpace(s[i + 1])))
  }

  /** Every character of `r` is a character of `s`. */
  predicate CharsFrom(r: string, s: string) { forall i :: 0 <= i < |r| ==> r[i] in s }

  predicate StartsWith(s: string, p: string) { |p| <= |s| && s[..|p|] == p }

  predicate EndsWith(s: string, p: string) { |p| <= |s| && s[|s| - |p|..] == p }

  // ---------------------------------------------------------------------
  // Case
  // ---------------------------------------------------------------------

  /** `s.lower()` on ASCII letters. */
  function Lower(s: string): (r: string)
    ensures |r| == |s| && NoUpper(r)
    ensures forall i :: 0 <= i < |s| ==> r[i] == LowerChar(s[i])
  {
    seq(|s|, i requires 0 <= i < |s| => LowerChar(s[i]))
  }

  lemma LowerNoUpper(s: string)
    requires NoUpper(s)
    ensures Lower(s) == s
  {
  }

  lemma LowerAppend(a: string, b: string)
    ensures Lower(a + b) == Lower(a) + Lower(b)
  {
  }

  lemma LowerIdempotent(s: string)
    ensures Lower(Lower(s)) == Lower(s)
  {
    LowerNoUpper(Lower(s));
  }

  /** Characters drawn from text without upper case letters are not upper case. */
  lemma CharsFromNoUpper(r: string, s: string)
    requires CharsFrom(r, s) && NoUpper(s)
    ensures NoUpper(r)
  {
    forall i | 0 <= i < |r| ensures !IsUpper(r[i]) {
      var j :| 0 <= j < |s| && s[j] == r[i];
    }
  }

  // ---------------------------------------------------------------------
  // strip
  // ---------------------------------------------------------------------

  /** `s.lstrip()`: the longest suffix of `s` that does not start with whitespace. */
  function StripLeft(s: string): (r: string)
    ensures |r| <= |s| && r == s[|s| - |r|..]
    ensures AllSpace(s[..|s| - |r|])
    ensures r == [] || !IsSpace(r[0])
    decreases |s|
  {
    if s != [] && IsSpace(s[0]) then
      var r := StripLeft(s[1..]);
      assert s[..|s| - |r|] == [s[0]] + s[1..][..|s| - 1 - |r|];
      r
    else s
  }

  /** `s.rstrip()`: the longest prefix of `s` that does not end with whitespace. */
  function StripRight(s: string): (r: string)
    ensures |r| <= |s| && r == s[..|r|]
    ensures AllSpace(s[|r|..])
    ensures r == [] || !IsSpace(r[|r| - 1])
    decreases |s|
  {
    if s != [] && IsSpace(s[|s| - 1]) then
      var r := StripRight(s[..|s| - 1]);
      assert s[|r|..] == s[..|s| - 1][|r|..] + [s[|s| - 1]];
      r
    else s
  }

  /** `s.strip()`. */
  function Strip(s: string): (r: string)
    ensures Trimmed(r) && CharsFrom(r, s) && |r| <= |s|
    ensures r == [] <==> AllSpace(s)
    ensures Trimmed(s) ==> r == s
  {
    StripFacts(s);
    StripRight(StripLeft(s))
  }

  /** `lstrip` removes exactly a whitespace prefix that is followed by a non-space. */
  lemma {:induction false} StripLeftSpaces(l: string, u: string)
    requires AllSpace(l) && (u == [] || !IsSpace(u[0]))
    ensures StripLeft(l + u) == u
    decreases |l|
  {
    if l == [] {
      assert l + u == u;
    } else {
      assert (l + u)[1..] == l[1..] + u;
      StripLeftSpaces(l[1..], u);
    }
  }

  /** `rstrip` removes exactly a whitespace suffix that follows a non-space. */
  lemma {:induction false} StripRightSpaces(u: string, r: string)
    requires AllSpace(r) && (u == [] || !IsSpace(u[|u| - 1]))
    ensures StripRight(u + r) == u
    decreases |r|
  {
    if r == [] {
      assert u + r == u;
    } else {
      assert (u + r)[..|u + r| - 1] == u + r[..|r| - 1];
      StripRightSpaces(u, r[..|r| - 1]);
    }
  }

  /** Stripping whitespace padding from both sides of trimmed, non-empty text gives that text. */
  lemma StripPadded(l: string, s: string, r: string)
    requires AllSpace(l) && AllSpace(r) && s != [] && Trimmed(s)
    ensures Strip(l + s + r) == s
  {
    assert l + s + r == l + (s + r);
    StripLeftSpaces(l, s + r);
    StripRightSpaces(s, r);
  }

  lemma {:induction false} StripLeftLower(s: string)
    ensures StripLeft(Lower(s)) == Lower(StripLeft(s))
    decreases |s|
  {
    if s != [] && IsSpace(s[0]) {
      assert Lower(s)[1..] == Lower(s[1..]);
      StripLeftLower(s[1..]);
    }
  }

  lemma {:induction false} StripRightLower(s: string)
    ensures StripRight(Lower(s)) == Lower(StripRight(s))
    decreases |s|
  {
    if s != [] && IsSpace(s[|s| - 1]) {
      assert Lower(s)[..|s| - 1] == Lower(s[..|s| - 1]);
      StripRightLower(s[..|s| - 1]);
    }
  }

  /** Lower-casing keeps whitespace where it is, so trimmed text stays trimmed. */
  lemma LowerTrimmed(s: string)
    requires Trimmed(s)
    ensures Trimmed(Lower(s))
  {
    if s != [] {
      var a := Lower(s);
      assert a[0] == LowerChar(s[0]) && a[|a| - 1] == LowerChar(s[|s| - 1]);
    }
  }

  /** Stripping and lower-casing commute. */
  lemma StripLower(s: string)
    ensures Strip(Lower(s)) == Lower(Strip(s))
  {
    StripLeftLower(s);
    StripRightLower(StripLeft(s));
  }

  lemma StripFacts(s: string)
    ensures var r := StripRight(StripLeft(s));
      CharsFrom(r, s) && (r == [] <==> AllSpace(s))
  {
    var l := StripLeft(s);
    var r := StripRight(l);
    var k := |s| - |l|;
    StripCharsFrom(s, l, r, k);
    if r == [] {
      StripAllSpace(s, l, k);
    } else {
      assert r[0] == l[0] == s[k];
    }
  }

  lemma StripCharsFrom(s: string, l: string, r: string, k: nat)
    requires k <= |s| && l == s[k..] && |r| <= |l| && r == l[..|r|]
    ensures CharsFrom(r, s)
  {
    forall i | 0 <= i < |r| ensures r[i] in s {
      assert r[i] == s[k + i];
    }
  }

  lemma StripAllSpace(s: string, l: string, k: nat)
    requires k <= |s| && l == s[k..] && AllSpace(s[..k]) && AllSpace(l)
    ensures AllSpace(s)
  {
    forall i | 0 <= i < |s| ensures IsSpace(s[i]) {
      if i < k {
        assert s[..k][i] == s[i];
      } else {
        assert l[i - k] == s[i];
      }
    }
  }

  // ---------------------------------------------------------------------
  // re.sub(r"\s+", " ", s)
  // ---------------------------------------------------------------------

  /** Replaces every maximal run of whitespace by one space. */
  function CollapseSpaces(s: string): (r: string)
    ensures (r == [] <==> s == []) && (r != [] ==> IsSpace(r[0]) == IsSpace(s[0]))
    ensures |r| <= |s|
    ensures SingleSpaced(r)
    ensures forall i :: 0 <= i < |r| && !IsSpace(r[i]) ==> r[i] in s
    ensures r != [] ==> IsSpace(r[|r| - 1]) == IsSpace(s[|s| - 1])
    ensures Words(r) == Words(s)
  {
    CollapseFromWords(s, false);
    CollapseFrom(s, false)
  }

  /**
   * The collapse scan: `afterSpace` says a whitespace run has just been
   * replaced, so further whitespace is dropped.
   */
  function CollapseFrom(s: string, afterSpace: bool): (r: string)
    ensures |r| <= |s|
    ensures !afterSpace ==> (r == [] <==> s == [])
    ensures r == [] ==> AllSpace(s)
    ensures r != [] ==> if afterSpace then !IsSpace(r[0]) else IsSpace(r[0]) == IsSpace(s[0])
    ensures SingleSpaced(r)
    ensures forall i :: 0 <= i < |r| && !IsSpace(r[i]) ==> r[i] in s
    ensures r != [] ==> IsSpace(r[|r| - 1]) == IsSpace(s[|s| - 1])
    decreases |s|
  {
    if s == [] then []
    else
      var space := IsSpace(s[0]);
      var rest := CollapseFrom(s[1..], space);
      CharsFromTail(rest, s);
      ConsAllSpace(s);
      var r := if space && afterSpace then rest else [if space then ' ' else s[0]] + rest;
      SingleSpacedCons(r, rest);
      assert rest != [] ==> r[|r| - 1] == rest[|rest| - 1] && s[1..][|s| - 2] == s[|s| - 1];
      r
  }

  lemma ConsAllSpace(s: string)
    requires s != []
    ensures AllSpace(s) <==> IsSpace(s[0]) && AllSpace(s[1..])
    ensures s[1..] == [] ==> s[|s| - 1] == s[0]
    ensures s[1..] != [] && AllSpace(s[1..]) ==> IsSpace(s[|s| - 1])
  {
    if s[1..] != [] && AllSpace(s[1..]) {
      assert s[1..][|s| - 2] == s[|s| - 1];
    }
    if IsSpace(s[0]) && AllSpace(s[1..]) {
      forall i | 0 <= i < |s| ensures IsSpace(s[i]) {
        if i > 0 { assert s[1..][i - 1] == s[i]; }
      }
    }
  }

  lemma SingleSpacedCons(r: string, rest: string)
    requires SingleSpaced(rest)
    requires r == rest || (|r| == |rest| + 1 && r[1..] == rest
      && (IsSpace(r[0]) ==> r[0] == ' ' && (rest == [] || !IsSpace(rest[0]))))
    ensures SingleSpaced(r)
  {
    if r != rest {
      forall i | 0 <= i < |r| && IsSpace(r[i]) ensures r[i] == ' ' {
        if i > 0 { assert r[i] == rest[i - 1]; }
      }
      forall i | 0 <= i < |r| - 1 ensures !(IsSpace(r[i]) && IsSpace(r[i + 1])) {
        assert r[i + 1] == rest[i];
        if i > 0 { assert r[i] == rest[i - 1]; }
      }
    }
  }

  lemma CharsFromTail(rest: string, s: string)
    requires s != []
    requires forall i :: 0 <= i < |rest| && !IsSpace(rest[i]) ==> rest[i] in s[1..]
    ensures forall i :: 0 <= i < |rest| && !IsSpace(rest[i]) ==> rest[i] in s
  {
    forall i | 0 <= i < |rest| && !IsSpace(rest[i]) ensures rest[i] in s {
      var j :| 0 <= j < |s[1..]| && s[1..][j] == rest[i];
      assert s[j + 1] == rest[i];
    }
  }

  /** The collapse scan keeps the words of the text: only whitespace is rewritten. */
  lemma {:induction false} CollapseFromWords(s: string, afterSpace: bool)
    ensures Words(CollapseFrom(s, afterSpace)) == Words(s)
    decreases |s|
  {
    if s != [] {
      var t := s[1..];
      CollapseFromStep(s, afterSpace);
      if IsSpace(s[0]) {
        CollapseFromWords(t, true);
        WordsSpaceStep(s, CollapseFrom(t, true), afterSpace);
      } else {
        CollapseFromWords(t, false);
        WordsCharStep(s, CollapseFrom(t, false));
      }
    }
  }

  /** A leading whitespace character, kept as one space or dropped, adds no word. */
  lemma WordsSpaceStep(s: string, rest: string, afterSpace: bool)
    requires s != [] && IsSpace(s[0]) && Words(rest) == Words(s[1..])
    ensures Words(if afterSpace then rest else [' '] + rest) == Words(s)
  {
    assert ([' '] + rest)[1..] == rest;
  }

  /** A leading non-space joins the same word on both sides when the rest starts alike. */
  lemma WordsCharStep(s: string, rest: string)
    requires s != [] && !IsSpace(s[0]) && Words(rest) == Words(s[1..])
    requires rest == [] <==> s[1..] == []
    requires rest != [] ==> IsSpace(rest[0]) == IsSpace(s[1..][0])
    ensures Words([s[0]] + rest) == Words(s)
  {
    assert s == [s[0]] + s[1..];
    WordsConsChar(s[0], rest);
    WordsConsChar(s[0], s[1..]);
  }

  /** Collapsing trimmed text leaves it trimmed. */
  lemma CollapseTrimmed(s: string)
    requires Trimmed(s)
    ensures Trimmed(CollapseSpaces(s))
  {
  }

  /** Collapsing is the identity on text that already has single spaces. */
  lemma CollapseSingleSpaced(s: string)
    requires SingleSpaced(s)
    ensures CollapseSpaces(s) == s
  {
    CollapseFromSingle(s, false);
  }

  lemma {:induction false} CollapseFromSingle(s: string, afterSpace: bool)
    requires SingleSpaced(s)
    requires afterSpace && s != [] ==> !IsSpace(s[0])
    ensures CollapseFrom(s, afterSpace) == s
    decreases |s|
  {
    if s != [] {
      var t := s[1..];
      SingleSpacedTail(s);
      CollapseFromSingle(t, IsSpace(s[0]));
      CollapseFromStep(s, afterSpace);
      assert s == [s[0]] + t;
    }
  }

  /** One step of the scan, unfolded. */
  lemma CollapseFromStep(s: string, afterSpace: bool)
    requires s != []
    ensures CollapseFrom(s, afterSpace) ==
      if IsSpace(s[0]) && afterSpace then CollapseFrom(s[1..], true)
      else [if IsSpace(s[0]) then ' ' else s[0]] + CollapseFrom(s[1..], IsSpace(s[0]))
  {
  }

  lemma SingleSpacedTail(s: string)
    requires SingleSpaced(s) && s != []
    ensures SingleSpaced(s[1..]) && (IsSpace(s[0]) ==> s[0] == ' ')
    ensures IsSpace(s[0]) && |s| > 1 ==> !IsSpace(s[1..][0])
  {
    var t := s[1..];
    forall i | 0 <= i < |t| - 1 ensures !(IsSpace(t[i]) && IsSpace(t[i + 1])) {
      assert t[i] == s[i + 1] && t[i + 1] == s[i + 2];
    }
    forall i | 0 <= i < |t| && IsSpace(t[i]) ensures t[i] == ' ' {
      assert t[i] == s[i + 1];
    }
  }

  lemma CollapseNoUpper(s: string)
    requires NoUpper(s)
    ensures NoUpper(CollapseSpaces(s))
  {
    var r := CollapseSpaces(s);
    forall i | 0 <= i < |r| ensures !IsUpper(r[i]) {
      if !IsSpace(r[i]) { assert r[i] in s; }
    }
  }

  // ---------------------------------------------------------------------
  // Removing and replacing characters
  // ---------------------------------------------------------------------

  /**
   * `s` with every character of `cs` deleted (`re.sub(r"[...]+", "", s)`).
   * WithoutCount says each other character is kept as often as it occurs,
   * and WithoutAppend that the kept characters stay in order.
   */
  function Without(s: string, cs: set<char>): (r: string)
    ensures |r| <= |s|
    ensures forall i :: 0 <= i < |r| ==> r[i] in s && r[i] !in cs
    ensures (forall i :: 0 <= i < |s| ==> s[i] !in cs) ==> r == s
    decreases |s|
  {
    if s == [] then []
    else
      var rest := Without(s[1..], cs);
      assert forall i :: 0 <= i < |rest| ==> rest[i] in s by {
        forall i | 0 <= i < |rest| ensures rest[i] in s { assert rest[i] in s[1..]; }
      }
      if s[0] in cs then rest else [s[0]] + rest
  }

  /** A character that is not deleted occurs in the result as often as in `s`. */
  lemma {:induction false} WithoutCount(s: string, cs: set<char>, c: char)
    requires c !in cs
    ensures multiset(Without(s, cs))[c] == multiset(s)[c]
    decreases |s|
  {
    if s != [] {
      assert s == [s[0]] + s[1..];
      WithoutCons(s[0], s[1..], cs);
      WithoutCount(s[1..], cs, c);
    }
  }

  /** Deleting characters works piece by piece, so what is kept keeps its order. */
  lemma {:induction false} WithoutAppend(a: string, b: string, cs: set<char>)
    ensures Without(a + b, cs) == Without(a, cs) + Without(b, cs)
    decreases |a|
  {
    if a != [] {
      assert a + b == [a[0]] + (a[1..] + b);
      assert a == [a[0]] + a[1..];
      WithoutCons(a[0], a[1..] + b, cs);
      WithoutCons(a[0], a[1..], cs);
      WithoutAppend(a[1..], b, cs);
    } else {
      assert a + b == b;
    }
  }

  lemma WithoutCons(c: char, t: string, cs: set<char>)
    ensures Without([c] + t, cs) == (if c in cs then [] else [c]) + Without(t, cs)
  {
    assert ([c] + t)[1..] == t;
  }

  /**
   * Stripping, lower-casing, collapsing whitespace and deleting the
   * characters `cs` leave alone text that needs none of them.
   */
  lemma StagesFixed(p: string, cs: set<char>)
    requires Trimmed(p) && NoUpper(p) && SingleSpaced(p)
    requires forall i :: 0 <= i < |p| ==> p[i] !in cs
    ensures Without(CollapseSpaces(Lower(Strip(p))), cs) == p
  {
    LowerNoUpper(p);
    CollapseSingleSpaced(p);
  }

  /** `s.replace(a, b)` for single characters. */
  function ReplaceChar(s: string, a: char, b: char): (r: string)
    ensures |r| == |s|
    ensures forall i :: 0 <= i < |s| ==> r[i] == (if s[i] == a then b else s[i])
  {
    seq(|s|, i requires 0 <= i < |s| => if s[i] == a then b else s[i])
  }

  // ---------------------------------------------------------------------
  // Substring search: `k in s` and `s.find(k)`
  // ---------------------------------------------------------------------

  ghost predicate OccursAt(s: string, k: string, i: nat) {
    i + |k| <= |s| && s[i..i + |k|] == k
  }

  /** The first position at or after `i` where `k` occurs in `s`. */
  function FindFrom(s: string, k: string, i: nat): (r: Option<nat>)
    ensures r.Some? ==> i <= r.value && OccursAt(s, k, r.value)
    ensures r.Some? ==> forall j: nat :: i <= j < r.value ==> !OccursAt(s, k, j)
    ensures r.None? ==> forall j: nat :: i <= j ==> !OccursAt(s, k, j)
    decreases |s| - i
  {
    if i + |k| > |s| then None
    else if s[i..i + |k|] == k then Some(i)
    else FindFrom(s, k, i + 1)
  }

  /** Python's `k in s` for strings. */
  predicate Contains(s: string, k: string) {
    FindFrom(s, k, 0).Some?
  }

  lemma ContainsAt(s: string, k: string, i: nat)
    requires OccursAt(s, k, i)
    ensures Contains(s, k)
  {
  }

  lemma ContainsWitness(s: string, k: string) returns (i: nat)
    requires Contains(s, k)
    ensures OccursAt(s, k, i)
  {
    i := FindFrom(s, k, 0).value;
  }

  lemma ContainsAppendRight(a: string, b: string, k: string)
    requires Contains(a, k)
    ensures Contains(a + b, k)
  {
    var i := ContainsWitness(a, k);
    assert (a + b)[i..i + |k|] == a[i..i + |k|];
    ContainsAt(a + b, k, i);
  }

  lemma ContainsAppendLeft(a: string, b: string, k: string)
    requires Contains(b, k)
    ensures Contains(a + b, k)
  {
    var i := ContainsWitness(b, k);
    assert (a + b)[|a| + i..|a| + i + |k|] == b[i..i + |k|];
    ContainsAt(a + b, k, |a| + i);
  }

  /** A lower-case needle found in `s` is also found in `s.lower()`. */
  lemma ContainsLower(s: string, k: string)
    requires Contains(s, k) && NoUpper(k)
    ensures Contains(Lower(s), k)
  {
    var i := ContainsWitness(s, k);
    assert Lower(s)[i..i + |k|] == k;
    ContainsAt(Lower(s), k, i);
  }

  /** Lower-casing a space-joined triple lower-cases each part. */
  lemma LowerSpaced(a: string, b: string, c: string)
    ensures Lower(a + " " + b + " " + c) == Lower(a) + " " + Lower(b) + " " + Lower(c)
  {
    LowerAppend(a + " " + b + " ", c);
    LowerAppend(a + " " + b, " ");
    LowerAppend(a + " ", b);
    LowerAppend(a, " ");
  }

  /** A key found in the lower case of a piece of `s` is found in the lower case of `s`. */
  lemma ContainsLowerWithin(s: string, w: string, k: string)
    requires Contains(s, w) && Contains(Lower(w), k)
    ensures Contains(Lower(s), k)
  {
    var j := ContainsWitness(s, w);
    var i := ContainsWitness(Lower(w), k);
    OccursLowerWithin(s, w, k, j, i);
    ContainsAt(Lower(s), k, j + i);
  }

  lemma OccursLowerWithin(s: string, w: string, k: string, j: nat, i: nat)
    requires OccursAt(s, w, j) && OccursAt(Lower(w), k, i)
    ensures OccursAt(Lower(s), k, j + i)
  {
    forall m | 0 <= m < |k| ensures Lower(s)[j + i + m] == k[m] {
      assert s[j..j + |w|][i + m] == w[i + m];
      assert Lower(w)[i..i + |k|][m] == k[m];
    }
    assert Lower(s)[j + i..j + i + |k|] == k;
  }

  /** A key holding a character that `s` lacks does not occur in `s`. */
  lemma AbsentKey(s: string, k: string, i: nat)
    requires i < |k| && forall j :: 0 <= j < |s| ==> s[j] != k[i]
    ensures !Contains(s, k)
  {
    forall j: nat ensures !OccursAt(s, k, j) {
      if j + |k| <= |s| {
        assert s[j..j + |k|][i] == s[j + i];
      }
    }
  }

  /** `any(k in text for k in keys)`. */
  function ContainsAny(text: string, keys: seq<string>): (b: bool)
    ensures b <==> exists k :: k in keys && Contains(text, k)
  {
    if keys == [] then false
    else Contains(text, keys[0]) || ContainsAny(text, keys[1..])
  }

  lemma ContainsAnyRight(t: string, u: string, keys: seq<string>)
    requires ContainsAny(t, keys)
    ensures ContainsAny(t + u, keys)
  {
    var k :| k in keys && Contains(t, k);
    ContainsAppendRight(t, u, k);
  }

  lemma ContainsAnyLeft(t: string, u: string, keys: seq<string>)
    requires ContainsAny(u, keys)
    ensures ContainsAny(t + u, keys)
  {
    var k :| k in keys && Contains(u, k);
    ContainsAppendLeft(t, u, k);
  }

  lemma ContainsAnySplit(t: string, keys: seq<string>, n: nat)
    requires n <= |keys|
    ensures ContainsAny(t, keys) <==> ContainsAny(t, keys[..n]) || ContainsAny(t, keys[n..])
  {
    assert keys == keys[..n] + keys[n..];
    forall k | k in keys ensures k in keys[..n] || k in keys[n..] {
      var i :| 0 <= i < |keys| && keys[i] == k;
      if i >= n { assert keys[n..][i - n] == k; }
    }
  }

  /** No key occurs when each holds, at position `at[n]`, one of the characters `s` lacks. */
  lemma NoKeyContained(s: string, keys: seq<string>, absent: set<char>, at: seq<nat>)
    requires forall j :: 0 <= j < |s| ==> s[j] !in absent
    requires |at| == |keys|
    requires forall n :: 0 <= n < |keys| ==> at[n] < |keys[n]| && keys[n][at[n]] in absent
    ensures !ContainsAny(s, keys)
  {
    forall k | k in keys ensures !Contains(s, k) {
      var n :| 0 <= n < |keys| && keys[n] == k;
      AbsentKey(s, k, at[n]);
    }
  }

  // ---------------------------------------------------------------------
  // sep.join(parts) and s.split(sep)
  // ---------------------------------------------------------------------

  function Join(parts: seq<string>, sep: string): string {
    if |parts| == 0 then ""
    else if |parts| == 1 then parts[0]
    else parts[0] + sep + Join(parts[1..], sep)
  }

  /** A joined list is at least as long as its first part. */
  lemma {:induction false} JoinFirst(parts: seq<string>, sep: string)
    requires parts != []
    ensures |Join(parts, sep)| >= |parts[0]|
  {
  }

  /** Each part occurs in the joined text. */
  lemma {:induction false} JoinContains(parts: seq<string>, sep: string, i: nat)
    requires i < |parts|
    ensures Contains(Join(parts, sep), parts[i])
    decreases |parts|
  {
    if i == 0 {
      assert parts[0][0..|parts[0]|] == parts[0];
      ContainsAt(parts[0], parts[0], 0);
      if |parts| > 1 {
        assert Join(parts, sep) == parts[0] + (sep + Join(parts[1..], sep));
        ContainsAppendRight(parts[0], sep + Join(parts[1..], sep), parts[0]);
      }
    } else {
      assert parts[1..][i - 1] == parts[i];
      JoinContains(parts[1..], sep, i - 1);
      ContainsAppendLeft(parts[0] + sep, Join(parts[1..], sep), parts[i]);
    }
  }

  lemma JoinSnoc(parts: seq<string>, p: string, sep: string)
    requires parts != []
    ensures Join(parts + [p], sep) == Join(parts, sep) + sep + p
  {
    if |parts| == 1 {
    } else {
      assert (parts + [p])[1..] == parts[1..] + [p];
      JoinSnoc(parts[1..], p, sep);
    }
  }

  /** `s.split(sep)` for a non-empty separator. */
  function SplitOn(s: string, sep: string): (parts: seq<string>)
    requires sep != []
    ensures |parts| >= 1 && Join(parts, sep) == s
    decreases |s|
  {
    match FindFrom(s, sep, 0)
    case None => [s]
    case Some(i) =>
      var rest := SplitOn(s[i + |sep|..], sep);
      assert s == s[..i] + sep + s[i + |sep|..];
      [s[..i]] + rest
  }

  /**
   * The cuts `str.split` makes: no part but the last is followed by an
   * earlier occurrence of the separator than the one after it, and the last
   * part holds none.
   */
  ghost predicate LeftmostCuts(parts: seq<string>, sep: string)
    requires sep != []
  {
    && parts != []
    && !Contains(parts[|parts| - 1], sep)
    && forall k :: 0 <= k < |parts| - 1 ==> !Contains((parts[k] + sep)[..|parts[k]| + |sep| - 1], sep)
  }

  /** `str.split` cuts at the leftmost occurrence each time. */
  lemma {:induction false} SplitOnLeftmost(s: string, sep: string)
    requires sep != []
    ensures LeftmostCuts(SplitOn(s, sep), sep)
    decreases |s|
  {
    match FindFrom(s, sep, 0)
    case None =>
      assert SplitOn(s, sep) == [s];
    case Some(i) =>
      var rest := SplitOn(s[i + |sep|..], sep);
      SplitOnLeftmost(s[i + |sep|..], sep);
      FirstCut(s, sep, i);
      var parts := [s[..i]] + rest;
      assert SplitOn(s, sep) == parts;
      CutsCons(s[..i], rest, sep);
  }

  lemma CutsCons(x: string, rest: seq<string>, sep: string)
    requires sep != [] && LeftmostCuts(rest, sep)
    requires !Contains((x + sep)[..|x| + |sep| - 1], sep)
    ensures LeftmostCuts([x] + rest, sep)
  {
    var parts := [x] + rest;
    assert parts[|parts| - 1] == rest[|rest| - 1];
    forall k | 0 <= k < |parts| - 1
      ensures !Contains((parts[k] + sep)[..|parts[k]| + |sep| - 1], sep)
    {
      if k > 0 {
        assert parts[k] == rest[k - 1];
      }
    }
  }

  /** Before the first occurrence, the text up to one character short of its end holds none. */
  lemma FirstCut(s: string, sep: string, i: nat)
    requires sep != [] && FindFrom(s, sep, 0) == Some(i)
    ensures !Contains((s[..i] + sep)[..i + |sep| - 1], sep)
  {
    var n := i + |sep| - 1;
    var v := s[..n];
    assert (s[..i] + sep)[..n] == v;
    forall j: nat ensures !OccursAt(v, sep, j) {
      if j + |sep| <= n {
        assert j < i && !OccursAt(s, sep, j);
        assert v[j..j + |sep|] == s[j..j + |sep|];
      }
    }
  }

  /** The leftmost cuts and the join round trip determine the split. */
  lemma {:induction false} SplitOnUnique(parts: seq<string>, sep: string)
    requires sep != [] && LeftmostCuts(parts, sep)
    ensures SplitOn(Join(parts, sep), sep) == parts
    decreases |parts|
  {
    if |parts| == 1 {
      SplitOnNone(parts, sep);
    } else {
      CutsTail(parts, sep);
      SplitOnUnique(parts[1..], sep);
      SplitOnUniqueStep(parts, sep);
    }
  }

  lemma SplitOnUniqueStep(parts: seq<string>, sep: string)
    requires sep != [] && |parts| > 1
    requires !Contains((parts[0] + sep)[..|parts[0]| + |sep| - 1], sep)
    requires SplitOn(Join(parts[1..], sep), sep) == parts[1..]
    ensures SplitOn(Join(parts, sep), sep) == parts
  {
    SplitOnCut(parts[0], Join(parts[1..], sep), sep);
    assert parts == [parts[0]] + parts[1..];
  }

  lemma SplitOnNone(parts: seq<string>, sep: string)
    requires sep != [] && |parts| == 1 && !Contains(parts[0], sep)
    ensures SplitOn(Join(parts, sep), sep) == parts
  {
  }

  lemma CutsTail(parts: seq<string>, sep: string)
    requires sep != [] && LeftmostCuts(parts, sep) && |parts| > 1
    ensures LeftmostCuts(parts[1..], sep)
    ensures !Contains((parts[0] + sep)[..|parts[0]| + |sep| - 1], sep)
  {
    var tail := parts[1..];
    assert tail[|tail| - 1] == parts[|parts| - 1];
    forall k | 0 <= k < |tail| - 1
      ensures !Contains((tail[k] + sep)[..|tail[k]| + |sep| - 1], sep)
    {
      assert tail[k] == parts[k + 1];
    }
  }

  /** A leftmost cut after `x` makes `x` the first part. */
  lemma SplitOnCut(x: string, t: string, sep: string)
    requires sep != [] && !Contains((x + sep)[..|x| + |sep| - 1], sep)
    ensures SplitOn(x + sep + t, sep) == [x] + SplitOn(t, sep)
  {
    var s := x + sep + t;
    CutIsFirst(x, t, sep);
    assert s[..|x|] == x && s[|x| + |sep|..] == t;
  }

  /** A part whose cut is leftmost is followed by the first occurrence of the separator. */
  lemma CutIsFirst(x: string, t: string, sep: string)
    requires sep != [] && !Contains((x + sep)[..|x| + |sep| - 1], sep)
    ensures FindFrom(x + sep + t, sep, 0) == Some(|x|)
  {
    var s := x + sep + t;
    var u := (x + sep)[..|x| + |sep| - 1];
    assert u == s[..|x| + |sep| - 1];
    assert s[|x|..|x| + |sep|] == sep;
    assert OccursAt(s, sep, |x|);
    forall j: nat | j < |x| ensures !OccursAt(s, sep, j) {
      assert !OccursAt(u, sep, j);
      assert u[j..j + |sep|] == s[j..j + |sep|];
    }
  }

  /**
   * Splitting a joined list gives the list back when the separator holds a
   * marker character (such as '|' in " | ") that occurs once in it and in no part.
   */
  lemma {:induction false} SplitOnJoin(xs: seq<string>, sep: string, m: nat)
    requires |xs| >= 1 && m < |sep|
    requires forall j :: 0 <= j < |sep| && j != m ==> sep[j] != sep[m]
    requires forall x :: x in xs ==> sep[m] !in x
    ensures SplitOn(Join(xs, sep), sep) == xs
    decreases |xs|
  {
    assert xs[0] in xs;
    if |xs| == 1 {
      SplitOnSingle(xs[0], sep, m);
    } else {
      var tail := Join(xs[1..], sep);
      assert Join(xs, sep) == xs[0] + sep + tail;
      SplitOnStep(xs[0], tail, sep, m);
      assert forall x :: x in xs[1..] ==> x in xs;
      SplitOnJoin(xs[1..], sep, m);
      assert xs == [xs[0]] + xs[1..];
    }
  }

  lemma SplitOnSingle(x: string, sep: string, m: nat)
    requires m < |sep| && sep[m] !in x
    ensures SplitOn(x, sep) == [x]
  {
    NoMarkNoOccurrence(x, sep, m);
    assert FindFrom(x, sep, 0).None?;
  }

  lemma SplitOnStep(x0: string, tail: string, sep: string, m: nat)
    requires m < |sep| && sep[m] !in x0
    requires forall j :: 0 <= j < |sep| && j != m ==> sep[j] != sep[m]
    ensures SplitOn(x0 + sep + tail, sep) == [x0] + SplitOn(tail, sep)
  {
    var s := x0 + sep + tail;
    FirstSeparator(x0, tail, sep, m);
    assert FindFrom(s, sep, 0) == Some(|x0|);
    assert s[..|x0|] == x0;
    assert s[|x0| + |sep|..] == tail;
  }

  /** Text without the marker character holds no occurrence of the separator. */
  lemma NoMarkNoOccurrence(s: string, sep: string, m: nat)
    requires m < |sep| && sep[m] !in s
    ensures forall j: nat :: 0 <= j ==> !OccursAt(s, sep, j)
  {
    forall j: nat | j + |sep| <= |s| ensures !OccursAt(s, sep, j) {
      assert s[j + m] in s;
      assert s[j..j + |sep|][m] == s[j + m];
    }
  }

  /** In `x0 + sep + tail` the first occurrence of `sep` is right after `x0`. */
  lemma FirstSeparator(x0: string, tail: string, sep: string, m: nat)
    requires m < |sep| && sep[m] !in x0
    requires forall j :: 0 <= j < |sep| && j != m ==> sep[j] != sep[m]
    ensures var s := x0 + sep + tail;
      OccursAt(s, sep, |x0|) && forall j: nat :: 0 <= j < |x0| ==> !OccursAt(s, sep, j)
  {
    var s := x0 + sep + tail;
    assert s[|x0|..|x0| + |sep|] == sep;
    forall j: nat | j < |x0| && j + |sep| <= |s| ensures !OccursAt(s, sep, j) {
      if j + m < |x0| {
        assert s[j + m] == x0[j + m];
        assert x0[j + m] in x0;
      } else {
        assert s[j + m] == sep[j + m - |x0|];
        assert j + m - |x0| != m;
      }
      assert s[j..j + |sep|][m] == s[j + m];
    }
  }

  // ---------------------------------------------------------------------
  // s.split() with no argument
  // ---------------------------------------------------------------------

  /** The length of the longest prefix of `s` without whitespace. */
  function SpanNonSpace(s: string): (n: nat)
    ensures n <= |s|
    ensures forall i :: 0 <= i < n ==> !IsSpace(s[i])
    ensures n < |s| ==> IsSpace(s[n])
    decreases |s|
  {
    if s == [] || IsSpace(s[0]) then 0 else 1 + SpanNonSpace(s[1..])
  }

  /** `s.split()`: the maximal runs of non-whitespace characters, in order. */
  function Words(s: string): seq<string>
    decreases |s|
  {
    if s == [] then []
    else if IsSpace(s[0]) then Words(s[1..])
    else
      var n := SpanNonSpace(s);
      [s[..n]] + Words(s[n..])
  }

  predicate NoSpace(s: string) { forall i :: 0 <= i < |s| ==> !IsSpace(s[i]) }

  /** Every piece `split()` gives is a non-empty run without whitespace. */
  lemma {:induction false} WordsAreWords(s: string)
    ensures forall i :: 0 <= i < |Words(s)| ==> Words(s)[i] != [] && NoSpace(Words(s)[i])
    decreases |s|
  {
    if s == [] {
    } else if IsSpace(s[0]) {
      WordsAreWords(s[1..]);
    } else {
      var n := SpanNonSpace(s);
      var w := s[..n];
      assert NoSpace(w);
      var rest := Words(s[n..]);
      WordsAreWords(s[n..]);
      var ws := [w] + rest;
      assert Words(s) == ws;
      forall i | 0 <= i < |ws| ensures ws[i] != [] && NoSpace(ws[i]) {
        if i == 0 { assert ws[0] == w; } else { assert ws[i] == rest[i - 1]; }
      }
    }
  }

  /** `split()` gives nothing exactly for all-whitespace text. */
  lemma {:induction false} WordsEmpty(s: string)
    ensures Words(s) == [] <==> AllSpace(s)
    decreases |s|
  {
    if s != [] && IsSpace(s[0]) {
      WordsEmpty(s[1..]);
      assert s == [s[0]] + s[1..];
    }
  }

  /** `len(s.split())`. */
  function WordCount(s: string): nat {
    |Words(s)|
  }

  /** Splitting a word, a space and more text gives the word, then the words of the rest. */
  lemma WordsCons(w: string, rest: string)
    requires w != [] && NoSpace(w)
    ensures Words(w + " " + rest) == [w] + Words(rest)
  {
    var s := w + " " + rest;
    assert s[0] == w[0];
    assert forall i :: 0 <= i < |w| ==> s[i] == w[i];
    assert IsSpace(s[|w|]);
    var n := SpanNonSpace(s);
    assert n == |w|;
    assert s[..n] == w;
    assert s[n..] == " " + rest;
    assert (" " + rest)[1..] == rest;
  }

  /** Splitting text that starts with a non-space: the character joins the first word when that word starts right after it. */
  lemma WordsConsChar(c: char, t: string)
    requires !IsSpace(c)
    ensures Words([c] + t) ==
      if t == [] || IsSpace(t[0]) then [[c]] + Words(t)
      else [[c] + Words(t)[0]] + Words(t)[1..]
  {
    var s := [c] + t;
    assert s[1..] == t;
    var m := SpanNonSpace(t);
    assert SpanNonSpace(s) == 1 + m;
    assert s[..1 + m] == [c] + t[..m];
    assert s[1 + m..] == t[m..];
  }

  /** Leading whitespace does not change `split()`. */
  lemma {:induction false} WordsLeadingSpaces(l: string, u: string)
    requires AllSpace(l)
    ensures Words(l + u) == Words(u)
    decreases |l|
  {
    if l == [] {
      assert l + u == u;
    } else {
      assert (l + u)[1..] == l[1..] + u;
      WordsLeadingSpaces(l[1..], u);
    }
  }

  /** Trailing whitespace does not change `split()`. */
  lemma {:induction false} WordsTrailingSpaces(u: string, r: string)
    requires AllSpace(r)
    ensures Words(u + r) == Words(u)
    decreases |u|
  {
    if u == [] {
      assert u + r == r;
      WordsEmpty(r);
    } else if IsSpace(u[0]) {
      assert (u + r)[1..] == u[1..] + r;
      WordsTrailingSpaces(u[1..], r);
    } else {
      var n := SpanNonSpace(u);
      SpanTrailingSpaces(u, r);
      assert (u + r)[..n] == u[..n];
      assert (u + r)[n..] == u[n..] + r;
      WordsTrailingSpaces(u[n..], r);
    }
  }

  lemma {:induction false} SpanTrailingSpaces(u: string, r: string)
    requires AllSpace(r)
    ensures SpanNonSpace(u + r) == SpanNonSpace(u)
    decreases |u|
  {
    if u == [] {
      assert u + r == r;
    } else if !IsSpace(u[0]) {
      assert (u + r)[1..] == u[1..] + r;
      SpanTrailingSpaces(u[1..], r);
    }
  }

  /** Stripping does not change `split()`. */
  lemma WordsStrip(s: string)
    ensures Words(StripLeft(s)) == Words(s)
    ensures Words(Strip(s)) == Words(s)
  {
    var l := StripLeft(s);
    WordsStripLeft(s, l);
    WordsStripRight(l, StripRight(l));
  }

  lemma WordsStripLeft(s: string, l: string)
    requires |l| <= |s| && l == s[|s| - |l|..] && AllSpace(s[..|s| - |l|])
    ensures Words(l) == Words(s)
  {
    var p := s[..|s| - |l|];
    assert s == p + l;
    WordsLeadingSpaces(p, l);
  }

  lemma WordsStripRight(l: string, t: string)
    requires |t| <= |l| && t == l[..|t|] && AllSpace(l[|t|..])
    ensures Words(t) == Words(l)
  {
    var q := l[|t|..];
    assert l == t + q;
    WordsTrailingSpaces(t, q);
  }

  lemma WordsSingle(w: string)
    requires w != [] && NoSpace(w)
    ensures Words(w) == [w]
  {
    var n := SpanNonSpace(w);
    assert n == |w|;
    assert w[..n] == w && w[n..] == [];
  }

  lemma WordsThree(a: string, b: string, c: string)
    requires a != [] && NoSpace(a) && b != [] && NoSpace(b) && c != [] && NoSpace(c)
    ensures Words(a + " " + (b + " " + c)) == [a, b, c]
  {
    var bc := b + " " + c;
    WordsCons(b, c);
    WordsSingle(c);
    assert Words(bc) == [b, c];
    WordsCons(a, bc);
  }
}

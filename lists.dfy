/**
 * List idioms of the source: the loop that appends a value only when the
 * list does not hold it yet, filtering a list in order, and cutting a list
 * to its first `n` elements.
 */
module Lists {
  import opened Wrappers

  predicate NoDuplicates<T(==)>(s: seq<T>) {
    forall i, j :: 0 <= i < j < |s| ==> s[i] != s[j]
  }

  /** The position of the first occurrence of `x` in `s`. */
  function IndexOf<T(==)>(s: seq<T>, x: T): (k: nat)
    requires x in s
    ensures k < |s| && s[k] == x
    ensures forall j :: 0 <= j < k ==> s[j] != x
  {
    if s[0] == x then 0 else 1 + IndexOf(s[1..], x)
  }

  /**
   * The distinct elements of `s` in order of first occurrence: what the loop
   * `for x in s: if x not in out: out.append(x)` leaves in `out`.
   */
  function Dedup<T(==)>(s: seq<T>): (r: seq<T>)
    ensures NoDuplicates(r)
    ensures forall i :: 0 <= i < |r| ==> r[i] in s
    ensures forall i :: 0 <= i < |s| ==> s[i] in r
    decreases |s|
  {
    if s == [] then []
    else
      var d := Dedup(s[..|s| - 1]);
      var x := s[|s| - 1];
      SnocMembers(s);
      if x in d then d else d + [x]
  }

  lemma SnocMembers<T>(s: seq<T>)
    requires s != []
    ensures forall i :: 0 <= i < |s| - 1 ==> s[i] == s[..|s| - 1][i]
    ensures forall i :: 0 <= i < |s| - 1 ==> s[i] in s
    ensures forall y :: y in s[..|s| - 1] ==> y in s
  {
  }

  lemma IndexOfSnoc<T>(s: seq<T>, x: T, y: T)
    requires y in s
    ensures IndexOf(s + [x], y) == IndexOf(s, y)
  {
    if s[0] != y {
      assert (s + [x])[1..] == s[1..] + [x];
      IndexOfSnoc(s[1..], x, y);
    }
  }

  /** The elements of `r` occur in `s`, and their first occurrences there are in the order of `r`. */
  ghost predicate InFirstOccurrenceOrder<T>(r: seq<T>, s: seq<T>) {
    (forall i :: 0 <= i < |r| ==> r[i] in s) &&
    forall i, j :: 0 <= i < j < |r| ==> IndexOf(s, r[i]) < IndexOf(s, r[j])
  }

  /** `Dedup` keeps the order of first occurrences. */
  lemma {:induction false} DedupOrder<T>(s: seq<T>)
    ensures InFirstOccurrenceOrder(Dedup(s), s)
    decreases |s|
  {
    if s != [] {
      var p := s[..|s| - 1];
      DedupOrder(p);
      DedupOrderStep(p, s[|s| - 1], s);
    }
  }

  lemma DedupOrderStep<T>(p: seq<T>, x: T, s: seq<T>)
    requires s == p + [x] && InFirstOccurrenceOrder(Dedup(p), p)
    ensures InFirstOccurrenceOrder(Dedup(s), s)
  {
    assert s[..|s| - 1] == p;
    forall y | y in p ensures IndexOf(s, y) == IndexOf(p, y) {
      IndexOfSnoc(p, x, y);
    }
    if x in Dedup(p) {
      DedupOrderKeep(p, x, s);
    } else {
      DedupOrderAdd(p, x, s);
    }
  }

  lemma DedupOrderKeep<T>(p: seq<T>, x: T, s: seq<T>)
    requires s == p + [x] && s[..|s| - 1] == p && InFirstOccurrenceOrder(Dedup(p), p) && x in Dedup(p)
    requires forall y :: y in p ==> IndexOf(s, y) == IndexOf(p, y)
    ensures InFirstOccurrenceOrder(Dedup(s), s)
  {
    var d := Dedup(p);
    var r := Dedup(s);
    assert r == d;
    forall i | 0 <= i < |r| ensures r[i] in s {
      assert r[i] in p;
    }
    forall i, j | 0 <= i < j < |r| ensures IndexOf(s, r[i]) < IndexOf(s, r[j]) {
      assert IndexOf(p, d[i]) < IndexOf(p, d[j]);
    }
  }

  lemma DedupOrderAdd<T>(p: seq<T>, x: T, s: seq<T>)
    requires s == p + [x] && s[..|s| - 1] == p && InFirstOccurrenceOrder(Dedup(p), p) && x !in Dedup(p)
    requires forall y :: y in p ==> IndexOf(s, y) == IndexOf(p, y)
    ensures InFirstOccurrenceOrder(Dedup(s), s)
  {
    var d := Dedup(p);
    var r := Dedup(s);
    assert r == d + [x];
    assert x !in p;
    assert IndexOf(s, x) == |p| by {
      assert s[|p|] == x;
      assert forall j :: 0 <= j < |p| ==> s[j] == p[j];
    }
    forall i | 0 <= i < |r| ensures r[i] in s {
      if i < |d| { assert r[i] == d[i] && d[i] in p; }
    }
    forall i, j | 0 <= i < j < |r| ensures IndexOf(s, r[i]) < IndexOf(s, r[j]) {
      assert r[i] == d[i];
      if j < |d| {
        assert r[j] == d[j];
        assert IndexOf(p, d[i]) < IndexOf(p, d[j]);
      } else {
        assert IndexOf(p, d[i]) < |p|;
      }
    }
  }

  /**
   * The "append if not already present" loop over candidate values: each
   * present candidate not yet in `acc` is appended, and a None candidate is
   * skipped.
   */
  function AddNew<T(==)>(acc: seq<T>, xs: seq<Option<T>>): (r: seq<T>)
    ensures |acc| <= |r| && r[..|acc|] == acc
    ensures NoDuplicates(acc) ==> NoDuplicates(r)
    ensures forall i :: 0 <= i < |r| ==> r[i] in acc || Some(r[i]) in xs
    ensures forall i :: 0 <= i < |xs| && xs[i].Some? ==> xs[i].value in r
    decreases |xs|
  {
    if xs == [] then acc
    else
      var a := AddNew(acc, xs[..|xs| - 1]);
      var x := xs[|xs| - 1];
      SnocMembers(xs);
      if x.Some? && x.value !in a then a + [x.value] else a
  }

  /** Running the loop over `xs + ys` is running it over `xs`, then over `ys`. */
  lemma {:induction false} AddNewAppend<T>(acc: seq<T>, xs: seq<Option<T>>, ys: seq<Option<T>>)
    ensures AddNew(acc, xs + ys) == AddNew(AddNew(acc, xs), ys)
    decreases |ys|
  {
    if ys == [] {
      assert xs + ys == xs;
    } else {
      var ys' := ys[..|ys| - 1];
      assert (xs + ys)[..|xs + ys| - 1] == xs + ys';
      AddNewAppend(acc, xs, ys');
    }
  }

  /** Starting from nothing, the loop keeps the distinct present values in order of first occurrence. */
  lemma {:induction false} AddNewDedup<T>(xs: seq<Option<T>>)
    ensures AddNew([], xs) == Dedup(Present(xs))
    decreases |xs|
  {
    if xs != [] {
      var xs' := xs[..|xs| - 1];
      AddNewDedup(xs');
      var x := xs[|xs| - 1];
      assert xs == xs' + [x];
      PresentSnoc(xs', x);
      if x.Some? {
        assert Present(xs)[..|Present(xs)| - 1] == Present(xs');
      }
    }
  }

  /** The values of the `Some` entries, in order. */
  function Present<T>(xs: seq<Option<T>>): (r: seq<T>)
    ensures |r| <= |xs|
    decreases |xs|
  {
    if xs == [] then []
    else
      var p := Present(xs[..|xs| - 1]);
      match xs[|xs| - 1]
      case Some(x) => p + [x]
      case None => p
  }

  lemma PresentSnoc<T>(xs: seq<Option<T>>, x: Option<T>)
    ensures Present(xs + [x]) == if x.Some? then Present(xs) + [x.value] else Present(xs)
  {
    assert (xs + [x])[..|xs|] == xs;
  }

  lemma {:induction false} PresentAppend<T>(xs: seq<Option<T>>, ys: seq<Option<T>>)
    ensures Present(xs + ys) == Present(xs) + Present(ys)
    decreases |ys|
  {
    if ys != [] {
      var ys' := ys[..|ys| - 1];
      var y := ys[|ys| - 1];
      assert xs + ys == (xs + ys') + [y];
      assert ys == ys' + [y];
      PresentAppend(xs, ys');
      PresentSnoc(xs + ys', y);
      PresentSnoc(ys', y);
    } else {
      assert xs + ys == xs;
    }
  }

  lemma {:induction false} PresentMembers<T>(xs: seq<Option<T>>, a: T)
    ensures a in Present(xs) <==> Some(a) in xs
    decreases |xs|
  {
    if xs != [] {
      var xs' := xs[..|xs| - 1];
      PresentMembers(xs', a);
      assert xs == xs' + [xs[|xs| - 1]];
      PresentSnoc(xs', xs[|xs| - 1]);
    }
  }

  /** `[f(x) for x in xs]`. */
  function Map<T, U>(xs: seq<T>, f: T -> U): (r: seq<U>)
    ensures |r| == |xs| && forall i :: 0 <= i < |xs| ==> r[i] == f(xs[i])
  {
    seq(|xs|, i requires 0 <= i < |xs| => f(xs[i]))
  }

  lemma MapAppend<T, U>(xs: seq<T>, ys: seq<T>, f: T -> U)
    ensures Map(xs + ys, f) == Map(xs, f) + Map(ys, f)
  {
  }

  lemma AddNewMapAppend<T, U>(acc: seq<U>, xs: seq<T>, ys: seq<T>, f: T -> Option<U>)
    ensures AddNew(acc, Map(xs + ys, f)) == AddNew(AddNew(acc, Map(xs, f)), Map(ys, f))
  {
    MapAppend(xs, ys, f);
    AddNewAppend(acc, Map(xs, f), Map(ys, f));
  }

  /** Starting from nothing, the loop keeps a value exactly when some candidate yields it. */
  lemma AddNewMembers<T, U>(xs: seq<T>, f: T -> Option<U>, a: U)
    ensures a in AddNew([], Map(xs, f)) <==> exists i :: 0 <= i < |xs| && f(xs[i]) == Some(a)
  {
    var ys := Map(xs, f);
    if a in AddNew([], ys) {
      var j :| 0 <= j < |ys| && ys[j] == Some(a);
      assert f(xs[j]) == Some(a);
    }
    if exists i :: 0 <= i < |xs| && f(xs[i]) == Some(a) {
      var i :| 0 <= i < |xs| && f(xs[i]) == Some(a);
      assert ys[i] == Some(a);
    }
  }

  /** Every value the loop keeps is yielded by some candidate. */
  lemma AddNewSource<T, U>(xs: seq<T>, f: T -> Option<U>, k: nat) returns (j: nat)
    requires k < |AddNew([], Map(xs, f))|
    ensures j < |xs| && f(xs[j]) == Some(AddNew([], Map(xs, f))[k])
  {
    var ys := Map(xs, f);
    var r := AddNew([], ys);
    assert r[k] in r;
    AddNewMembers(xs, f, r[k]);
    j :| 0 <= j < |xs| && f(xs[j]) == Some(r[k]);
  }

  /** The loop that appends the value `f` gives for each element when there is one and `acc` does not hold it yet. */
  method AddAll<T, U(==)>(acc: seq<U>, xs: seq<T>, f: T -> Option<U>) returns (r: seq<U>)
    ensures r == AddNew(acc, Map(xs, f))
  {
    r := acc;
    for i := 0 to |xs|
      invariant r == AddNew(acc, Map(xs[..i], f))
    {
      assert Map(xs[..i + 1], f) == Map(xs[..i], f) + [f(xs[i])];
      AddNewAppend(acc, Map(xs[..i], f), [f(xs[i])]);
      var v := f(xs[i]);
      if v.Some? && v.value !in r {
        r := r + [v.value];
      }
    }
    assert xs[..|xs|] == xs;
  }

  /** The loop that appends the value `f` gives for each element whenever there is one, repeats included. */
  method AppendAll<T, U>(acc: seq<U>, xs: seq<T>, f: T -> Option<U>) returns (r: seq<U>)
    ensures r == acc + Present(Map(xs, f))
  {
    r := acc;
    for i := 0 to |xs|
      invariant r == acc + Present(Map(xs[..i], f))
    {
      assert Map(xs[..i + 1], f) == Map(xs[..i], f) + [f(xs[i])];
      PresentSnoc(Map(xs[..i], f), f(xs[i]));
      var v := f(xs[i]);
      if v.Some? {
        r := r + [v.value];
      }
    }
    assert xs[..|xs|] == xs;
  }

  /** The `for x in xs` loop followed by the `for y in ys` loop, both appending present values. */
  method AppendBoth<T, U>(xs: seq<T>, ys: seq<T>, f: T -> Option<U>) returns (r: seq<U>)
    ensures r == Present(Map(xs + ys, f))
  {
    r := AppendAll([], xs, f);
    r := AppendAll(r, ys, f);
    MapAppend(xs, ys, f);
    PresentAppend(Map(xs, f), Map(ys, f));
  }

  /** `s` contains `a` as a subsequence: `a` is `s` with some elements left out. */
  predicate IsSubsequence<T(==)>(a: seq<T>, s: seq<T>)
    decreases |s|
  {
    if a == [] then true
    else if s == [] then false
    else if a[|a| - 1] == s[|s| - 1] then IsSubsequence(a[..|a| - 1], s[..|s| - 1])
    else IsSubsequence(a, s[..|s| - 1])
  }

  /** A subsequence stays one when the longer sequence grows. */
  lemma {:induction false} SubsequenceExtend<T>(a: seq<T>, s: seq<T>, x: T)
    requires IsSubsequence(a, s)
    ensures IsSubsequence(a, s + [x])
    decreases |s|, 1
  {
    assert (s + [x])[..|s|] == s;
    if a != [] && a[|a| - 1] == x {
      SubsequenceDropLast(a, s);
    }
  }

  lemma {:induction false} SubsequenceDropLast<T>(a: seq<T>, s: seq<T>)
    requires a != [] && IsSubsequence(a, s)
    ensures IsSubsequence(a[..|a| - 1], s)
    decreases |s|, 0
  {
    var a', s' := a[..|a| - 1], s[..|s| - 1];
    assert s == s' + [s[|s| - 1]];
    if a[|a| - 1] != s[|s| - 1] {
      SubsequenceDropLast(a, s');
    }
    SubsequenceExtend(a', s', s[|s| - 1]);
  }

  lemma SubsequenceSnoc<T>(a: seq<T>, s: seq<T>, x: T)
    requires IsSubsequence(a, s)
    ensures IsSubsequence(a, s + [x]) && IsSubsequence(a + [x], s + [x])
  {
    assert (s + [x])[..|s|] == s;
    assert (a + [x])[..|a|] == a;
    SubsequenceExtend(a, s, x);
  }

  lemma {:induction false} SubsequenceRefl<T>(s: seq<T>)
    ensures IsSubsequence(s, s)
    decreases |s|
  {
    if s != [] {
      SubsequenceRefl(s[..|s| - 1]);
    }
  }

  /** Being a subsequence is transitive. */
  lemma {:induction false} SubsequenceTrans<T>(a: seq<T>, b: seq<T>, c: seq<T>)
    requires IsSubsequence(a, b) && IsSubsequence(b, c)
    ensures IsSubsequence(a, c)
    decreases |c|
  {
    if a != [] {
      var c', x := c[..|c| - 1], c[|c| - 1];
      assert c == c' + [x];
      if b[|b| - 1] == x {
        var b' := b[..|b| - 1];
        if a[|a| - 1] == x {
          SubsequenceTrans(a[..|a| - 1], b', c');
        } else {
          SubsequenceTrans(a, b', c');
          SubsequenceExtend(a, c', x);
        }
      } else {
        SubsequenceTrans(a, b, c');
        SubsequenceExtend(a, c', x);
      }
    }
  }

  /** A prefix is a subsequence. */
  lemma {:induction false} PrefixSubsequence<T>(s: seq<T>, n: nat)
    requires n <= |s|
    ensures IsSubsequence(s[..n], s)
    decreases |s|
  {
    if n == |s| {
      assert s[..n] == s;
      SubsequenceRefl(s);
    } else {
      var s' := s[..|s| - 1];
      assert s'[..n] == s[..n];
      PrefixSubsequence(s', n);
      SubsequenceExtend(s[..n], s', s[|s| - 1]);
      assert s' + [s[|s| - 1]] == s;
    }
  }

  /** `[x for x in s if p(x)]`. */
  function Filter<T>(s: seq<T>, p: T -> bool): (r: seq<T>)
    ensures |r| <= |s|
    ensures forall i :: 0 <= i < |r| ==> r[i] in s && p(r[i])
    ensures forall i :: 0 <= i < |s| && p(s[i]) ==> s[i] in r
    decreases |s|
  {
    if s == [] then []
    else
      var f := Filter(s[..|s| - 1], p);
      var x := s[|s| - 1];
      SnocMembers(s);
      if p(x) then f + [x] else f
  }

  /** Filtering keeps every occurrence of a passing element and none of a failing one. */
  lemma {:induction false} FilterCount<T>(s: seq<T>, p: T -> bool)
    ensures forall i :: 0 <= i < |s| ==> multiset(Filter(s, p))[s[i]] == if p(s[i]) then multiset(s)[s[i]] else 0
    decreases |s|
  {
    if s != [] {
      var q := s[..|s| - 1];
      FilterCount(q, p);
      SnocMembers(s);
      FilterSnocCount(s, p, Filter(q, p));
    }
  }

  /** One more element: its occurrences are kept exactly when it passes. */
  lemma FilterSnocCount<T>(s: seq<T>, p: T -> bool, f: seq<T>)
    requires s != []
    requires forall i :: 0 <= i < |f| ==> f[i] in s[..|s| - 1]
    requires forall i :: 0 <= i < |s| - 1 ==> multiset(f)[s[i]] == if p(s[i]) then multiset(s[..|s| - 1])[s[i]] else 0
    ensures var r := if p(s[|s| - 1]) then f + [s[|s| - 1]] else f;
      forall i :: 0 <= i < |s| ==> multiset(r)[s[i]] == if p(s[i]) then multiset(s)[s[i]] else 0
  {
    var q := s[..|s| - 1];
    var x := s[|s| - 1];
    var r := if p(x) then f + [x] else f;
    assert s == q + [x];
    assert multiset(s) == multiset(q) + multiset{x};
    assert multiset(r) == if p(x) then multiset(f) + multiset{x} else multiset(f);
    if x !in q {
      assert x !in multiset(f);
    }
    forall i | 0 <= i < |s| - 1 ensures s[i] == q[i] {}
  }

  /** Filtering keeps the relative order of what it keeps. */
  lemma {:induction false} FilterSubsequence<T>(s: seq<T>, p: T -> bool)
    ensures IsSubsequence(Filter(s, p), s)
    decreases |s|
  {
    if s != [] {
      var q := s[..|s| - 1];
      FilterSubsequence(q, p);
      assert s == q + [s[|s| - 1]];
      SubsequenceSnoc(Filter(q, p), q, s[|s| - 1]);
    }
  }

  /** A filter every element passes keeps the whole sequence. */
  lemma {:induction false} FilterAll<T>(s: seq<T>, p: T -> bool)
    requires forall i :: 0 <= i < |s| ==> p(s[i])
    ensures Filter(s, p) == s
    decreases |s|
  {
    if s != [] {
      FilterAll(s[..|s| - 1], p);
      assert s[..|s| - 1] + [s[|s| - 1]] == s;
    }
  }

  /**
   * `[f(x) for x in xs]` where `f` may fail (a missing key): the results in
   * order when every call succeeds, None as soon as one fails.
   */
  function AllSome<T, U>(xs: seq<T>, f: T -> Option<U>): (r: Option<seq<U>>)
    ensures r.Some? <==> forall k :: 0 <= k < |xs| ==> f(xs[k]).Some?
    ensures r.Some? ==> |r.value| == |xs| && forall k :: 0 <= k < |xs| ==> f(xs[k]) == Some(r.value[k])
    decreases |xs|
  {
    if xs == [] then Some([])
    else
      match (AllSome(xs[..|xs| - 1], f), f(xs[|xs| - 1]))
      case (Some(ys), Some(y)) => Some(ys + [y])
      case _ => None
  }

  /** Python's `s[:n]` for `n >= 0`. */
  function Take<T>(s: seq<T>, n: nat): (r: seq<T>)
    ensures |r| == if n < |s| then n else |s|
    ensures r == s[..|r|]
  {
    if n < |s| then s[..n] else s
  }
}

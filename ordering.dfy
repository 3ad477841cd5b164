/**
 * Python's ordering of `str` values (code point by code point, a proper
 * prefix first) and `sorted(...)` of a set of strings.
 */
module Ordering {

  /** `a < b` on Python strings. */
  predicate Less(a: string, b: string)
    decreases |a|
  {
    if a == [] then b != []
    else if b == [] then false
    else if a[0] != b[0] then a[0] < b[0]
    else Less(a[1..], b[1..])
  }

  lemma {:induction false} LessIrreflexive(a: string)
    ensures !Less(a, a)
    decreases |a|
  {
    if a != [] { LessIrreflexive(a[1..]); }
  }

  lemma {:induction false} LessTransitive(a: string, b: string, c: string)
    requires Less(a, b) && Less(b, c)
    ensures Less(a, c)
    decreases |a|
  {
    if a != [] && b != [] && c != [] && a[0] == b[0] == c[0] {
      LessTransitive(a[1..], b[1..], c[1..]);
    }
  }

  lemma {:induction false} LessTotal(a: string, b: string)
    requires a != b
    ensures Less(a, b) || Less(b, a)
    decreases |a|
  {
    if a != [] && b != [] && a[0] == b[0] {
      assert a == [a[0]] + a[1..] && b == [b[0]] + b[1..];
      LessTotal(a[1..], b[1..]);
    }
  }

  lemma {:induction false} LessAsymmetric(a: string, b: string)
    requires Less(a, b)
    ensures !Less(b, a)
    decreases |a|
  {
    if a != [] && b != [] && a[0] == b[0] {
      LessAsymmetric(a[1..], b[1..]);
    }
  }

  predicate StrictlySorted(r: seq<string>) {
    forall i, j :: 0 <= i < j < |r| ==> Less(r[i], r[j])
  }

  /** `r` lists exactly the elements of `s`, in increasing order. */
  ghost predicate IsSortedListing(r: seq<string>, s: set<string>) {
    && StrictlySorted(r)
    && (forall i :: 0 <= i < |r| ==> r[i] in s)
    && (forall x :: x in s ==> x in r)
  }

  predicate IsLeast(m: string, s: set<string>) {
    m in s && forall y :: y in s && y != m ==> Less(m, y)
  }

  lemma {:induction false} LeastExists(s: set<string>)
    requires s != {}
    ensures exists m :: IsLeast(m, s)
    decreases |s|
  {
    var x :| x in s;
    if s != {x} {
      var rest := s - {x};
      LeastExists(rest);
      var m :| IsLeast(m, rest);
      if Less(m, x) {
        forall y | y in s && y != m ensures Less(m, y) {
          if y != x { assert y in rest; }
        }
        assert IsLeast(m, s);
      } else {
        LessTotal(m, x);
        forall y | y in s && y != x ensures Less(x, y) {
          if y != m { LessTransitive(x, m, y); }
        }
        assert IsLeast(x, s);
      }
    } else {
      assert IsLeast(x, s);
    }
  }

  lemma LeastUnique(m: string, n: string, s: set<string>)
    requires IsLeast(m, s) && IsLeast(n, s)
    ensures m == n
  {
    if m != n {
      LessAsymmetric(m, n);
    }
  }

  /** The sorted listing of a finite set of strings: what `sorted(s)` returns. */
  ghost function SortedListing(s: set<string>): (r: seq<string>)
    ensures IsSortedListing(r, s)
    decreases |s|
  {
    if s == {} then []
    else
      LeastExists(s);
      var m :| IsLeast(m, s);
      var rest := SortedListing(s - {m});
      assert forall i :: 0 <= i < |rest| ==> Less(m, rest[i]);
      [m] + rest
  }

  /** A sorted listing of a set is unique, so `sorted` depends only on the set. */
  lemma {:induction false} SortedListingUnique(r: seq<string>, s: set<string>)
    requires IsSortedListing(r, s)
    ensures r == SortedListing(s)
    decreases |s|
  {
    if r == [] {
      assert s == {};
    } else {
      ListingTail(r, s);
      var l := SortedListing(s);
      var m :| IsLeast(m, s) && l == [m] + SortedListing(s - {m});
      LeastUnique(r[0], m, s);
      SortedListingUnique(r[1..], s - {m});
      assert r == [r[0]] + r[1..];
    }
  }

  /** The head of a sorted listing is the least element, and the rest lists the others. */
  lemma ListingTail(r: seq<string>, s: set<string>)
    requires IsSortedListing(r, s) && r != []
    ensures IsLeast(r[0], s) && IsSortedListing(r[1..], s - {r[0]}) && |s - {r[0]}| < |s|
  {
    forall y | y in s && y != r[0] ensures Less(r[0], y) {
      var j :| 0 <= j < |r| && r[j] == y;
    }
    var t := r[1..];
    forall i | 0 <= i < |t| ensures t[i] in s - {r[0]} {
      assert t[i] == r[i + 1];
      assert Less(r[0], r[i + 1]);
      LessIrreflexive(r[0]);
    }
    forall x | x in s - {r[0]} ensures x in t {
      var j :| 0 <= j < |r| && r[j] == x;
      assert t[j - 1] == x;
    }
    assert StrictlySorted(t) by {
      forall i, j | 0 <= i < j < |t| ensures Less(t[i], t[j]) {
        assert t[i] == r[i + 1] && t[j] == r[j + 1];
      }
    }
  }

  /** `sorted(s)` for a set of strings: repeatedly takes the least remaining element. */
  method Sort(s: set<string>) returns (r: seq<string>)
    ensures r == SortedListing(s)
  {
    r := [];
    var rest := s;
    while rest != {}
      invariant rest <= s
      invariant IsSortedListing(r, s - rest)
      invariant forall i, y :: 0 <= i < |r| && y in rest ==> Less(r[i], y)
      decreases |rest|
    {
      LeastExists(rest);
      var m :| IsLeast(m, rest);
      r := r + [m];
      rest := rest - {m};
    }
    assert s - rest == s;
    SortedListingUnique(r, s);
  }
}

/**
 * Retrieved documents and the "first document per publication id" dedup
 * loop that both query front ends run after retrieval: a document is kept
 * when no earlier kept document has its publication id, and the ids seen so
 * far are remembered in a set.
 */
module Retrieval {
  import opened Wrappers
  import opened Lists

  /**
   * A retrieved chunk: its metadata fields and its page content. `awards` is
   * None when the metadata has no "awards" key.
   */
  datatype Doc = Doc(id: string, title: string, awards: Option<string>, content: string)

  /** A `fuzz.ratio` score: a string similarity from 0 to 100. */
  type Score = x: int | 0 <= x <= 100

  /** A `difflib.SequenceMatcher(None, a, b).ratio()` value, between 0 and 1. */
  type Fraction = r: real | 0.0 <= r <= 1.0

  /** The ratio tests: whether `fuzzywuzzy` imported, `fuzz.ratio`, and the difflib ratio. */
  datatype Similarity = Similarity(
    fuzzyAvailable: bool, fuzz: (string, string) -> Score, ratio: (string, string) -> Fraction)

  function Ids(docs: seq<Doc>): (r: seq<string>)
    ensures |r| == |docs| && forall i :: 0 <= i < |docs| ==> r[i] == docs[i].id
  {
    seq(|docs|, i requires 0 <= i < |docs| => docs[i].id)
  }

  lemma IdsSnoc(docs: seq<Doc>, d: Doc)
    ensures Ids(docs + [d]) == Ids(docs) + [d.id]
  {
  }

  predicate UniqueIds(docs: seq<Doc>) {
    NoDuplicates(Ids(docs))
  }

  /** Position `i` holds the first document of `docs` with its id. */
  ghost predicate FirstOfId(docs: seq<Doc>, i: nat) {
    i < |docs| && forall j :: 0 <= j < i ==> docs[j].id != docs[i].id
  }

  /** What the dedup loop leaves in `unique`. */
  function FirstPerId(docs: seq<Doc>): (r: seq<Doc>)
    ensures UniqueIds(r)
    ensures forall k :: 0 <= k < |r| ==> r[k] in docs
    decreases |docs|
  {
    if docs == [] then []
    else
      var p := FirstPerId(docs[..|docs| - 1]);
      var d := docs[|docs| - 1];
      assert forall k :: 0 <= k < |p| ==> p[k] in docs by {
        forall k | 0 <= k < |p| ensures p[k] in docs {
          var j :| 0 <= j < |docs| - 1 && docs[..|docs| - 1][j] == p[k];
          assert docs[j] == p[k];
        }
      }
      if d.id in Ids(p) then p else p + [d]
  }

  /** The ids kept are the distinct ids of `docs` in order of first occurrence. */
  lemma {:induction false} FirstPerIdIds(docs: seq<Doc>)
    ensures Ids(FirstPerId(docs)) == Dedup(Ids(docs))
    decreases |docs|
  {
    if docs != [] {
      var q := docs[..|docs| - 1];
      FirstPerIdIds(q);
      assert Ids(docs)[..|docs| - 1] == Ids(q);
      var p := FirstPerId(q);
      var d := docs[|docs| - 1];
      if d.id !in Ids(p) {
        assert Ids(p + [d]) == Ids(p) + [d.id];
      }
    }
  }

  /** Every kept document is the first one retrieved with its id. */
  lemma {:induction false} FirstPerIdFirst(docs: seq<Doc>)
    ensures forall k :: 0 <= k < |FirstPerId(docs)| ==>
      exists i: nat :: FirstOfId(docs, i) && docs[i] == FirstPerId(docs)[k]
    decreases |docs|
  {
    if docs != [] {
      var q := docs[..|docs| - 1];
      FirstPerIdFirst(q);
      var p := FirstPerId(q);
      var d := docs[|docs| - 1];
      assert q + [d] == docs;
      forall k | 0 <= k < |p| ensures exists i: nat :: FirstOfId(docs, i) && docs[i] == p[k] {
        var i: nat :| FirstOfId(q, i) && q[i] == p[k];
        assert FirstOfId(docs, i);
      }
      if d.id !in Ids(p) {
        FirstPerIdIds(q);
        forall j | 0 <= j < |q| ensures docs[j].id != d.id {
          assert Ids(q)[j] == q[j].id;
        }
        var n: nat := |docs| - 1;
        assert FirstOfId(docs, n) && docs[n] == d;
        var r := p + [d];
        assert FirstPerId(docs) == r;
        forall k | 0 <= k < |r| ensures exists i: nat :: FirstOfId(docs, i) && docs[i] == r[k] {
          if k == |p| {
            assert docs[n] == r[k];
          } else {
            assert r[k] == p[k];
          }
        }
      } else {
        assert FirstPerId(docs) == p;
      }
    } else {
      assert FirstPerId(docs) == [];
    }
  }

  /** The kept documents appear in retrieval order. */
  lemma {:induction false} FirstPerIdSubsequence(docs: seq<Doc>)
    ensures IsSubsequence(FirstPerId(docs), docs)
    decreases |docs|
  {
    if docs != [] {
      var q := docs[..|docs| - 1];
      FirstPerIdSubsequence(q);
      assert docs == q + [docs[|docs| - 1]];
      SubsequenceSnoc(FirstPerId(q), q, docs[|docs| - 1]);
    }
  }

  /** Every retrieved id is kept. */
  lemma FirstPerIdCovers(docs: seq<Doc>)
    ensures forall i :: 0 <= i < |docs| ==> docs[i].id in Ids(FirstPerId(docs))
  {
    FirstPerIdIds(docs);
    assert forall i :: 0 <= i < |docs| ==> Ids(docs)[i] == docs[i].id;
  }

  /** The dedup loop itself. */
  method UniqueById(docs: seq<Doc>) returns (unique: seq<Doc>)
    ensures unique == FirstPerId(docs)
  {
    var seen: set<string> := {};
    unique := [];
    for i := 0 to |docs|
      invariant unique == FirstPerId(docs[..i])
      invariant forall x :: x in seen <==> x in Ids(unique)
    {
      assert docs[..i + 1][..i] == docs[..i];
      var pid := docs[i].id;
      if pid !in seen {
        assert Ids(unique + [docs[i]]) == Ids(unique) + [pid];
        unique := unique + [docs[i]];
        seen := seen + {pid};
      }
    }
    assert docs[..|docs|] == docs;
  }

  /** Keeping at most `n` documents keeps unique ids and retrieval order. */
  lemma TakeFirstPerId(docs: seq<Doc>, n: nat)
    ensures UniqueIds(Take(FirstPerId(docs), n))
    ensures IsSubsequence(Take(FirstPerId(docs), n), docs)
  {
    var r := FirstPerId(docs);
    var t := Take(r, n);
    assert Ids(t) == Ids(r)[..|t|];
    FirstPerIdSubsequence(docs);
    PrefixSubsequence(r, |t|);
    SubsequenceTrans(t, r, docs);
  }

  /**
   * `r` is, for each of the first `n` distinct ids of `docs` in order of first
   * occurrence, the first document of `docs` with that id.
   */
  ghost predicate FirstOfEachId(r: seq<Doc>, docs: seq<Doc>, n: nat) {
    && Ids(r) == Take(Dedup(Ids(docs)), n)
    && forall k :: 0 <= k < |r| ==> exists i: nat :: FirstOfId(docs, i) && docs[i] == r[k]
  }

  /** The dedup loop cut to `n` keeps the first document of each of the first `n` ids. */
  lemma TakeFirstOfEachId(docs: seq<Doc>, n: nat)
    ensures FirstOfEachId(Take(FirstPerId(docs), n), docs, n)
  {
    var u := FirstPerId(docs);
    var r := Take(u, n);
    FirstPerIdIds(docs);
    FirstPerIdFirst(docs);
    assert Ids(r) == Ids(u)[..|r|];
    forall k | 0 <= k < |r| ensures exists i: nat :: FirstOfId(docs, i) && docs[i] == r[k] {
      assert r[k] == u[k];
    }
  }

  /**
   * Filtering, keeping the first document per id and cutting to `n` keeps at
   * most `n` documents with distinct ids, each passing the filter, in
   * retrieval order.
   */
  lemma FilteredSelection(docs: seq<Doc>, p: Doc -> bool, n: nat)
    ensures var r := Take(FirstPerId(Filter(docs, p)), n);
      && |r| <= n && UniqueIds(r) && IsSubsequence(r, docs)
      && (forall k :: 0 <= k < |r| ==> p(r[k]))
      && FirstOfEachId(r, Filter(docs, p), n)
  {
    var f := Filter(docs, p);
    var r := Take(FirstPerId(f), n);
    TakeFirstPerId(f, n);
    TakeFirstOfEachId(f, n);
    FilterSubsequence(docs, p);
    SubsequenceTrans(r, f, docs);
    forall k | 0 <= k < |r| ensures p(r[k]) {
      assert r[k] in FirstPerId(f);
      var j :| 0 <= j < |f| && f[j] == r[k];
    }
  }

  /**
   * One step of the capped dedup loop `if pid not in seen and len(unique) < k`:
   * the first `k` distinct-id documents of `q + [d]` are those of `q`, with
   * `d` added when its id is new and there is still room.
   */
  lemma TakeFirstPerIdStep(q: seq<Doc>, d: Doc, k: nat)
    ensures var u := Take(FirstPerId(q), k);
      Take(FirstPerId(q + [d]), k) == if d.id !in Ids(u) && |u| < k then u + [d] else u
  {
    var p := FirstPerId(q);
    var u := Take(p, k);
    assert (q + [d])[..|q|] == q;
    assert (q + [d])[|q + [d]| - 1] == d;
    if |u| < k {
      assert u == p;
    } else {
      assert |p| >= k;
      assert (p + [d])[..k] == p[..k];
    }
  }
}

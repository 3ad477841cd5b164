/**
 * The award count report (count_awards.py): for each searched award, how
 * many publications name it in their awards array, how many mention it in the
 * description, and how many distinct publications do either.
 */
module CountAwards {
  import opened Text
  import opened Lists

  /**
   * One publication of the awards data file: `awards` is [] when the key is
   * missing and `description` is "" when "publication_description" is.
   */
  datatype Pub = Pub(id: string, title: string, awards: seq<string>, description: string)

  /** The two awards the report searches for. */
  const Searches: seq<string> := ["best overall project", "most innovative project"]

  /** `any(award_search in a.lower() for a in pub.get("awards", []))`. */
  predicate InAwards(term: string, p: Pub) {
    exists i :: 0 <= i < |p.awards| && Contains(Lower(p.awards[i]), term)
  }

  /** `award_search in pub.get("publication_description", "").lower()`. */
  predicate InText(term: string, p: Pub) {
    Contains(Lower(p.description), term)
  }

  /** The test of the unique-id loop and the listing: either of the two. */
  predicate Mentions(term: string, p: Pub) {
    InAwards(term, p) || InText(term, p)
  }

  /** `sum(1 for pub in data if p(pub))`: the number of publications passing the test. */
  function Count(data: seq<Pub>, p: Pub -> bool): (n: nat)
    ensures n == |Filter(data, p)|
    ensures n <= |data|
    decreases |data|
  {
    if data == [] then 0
    else Count(data[..|data| - 1], p) + (if p(data[|data| - 1]) then 1 else 0)
  }

  /** The ids of a sequence of publications, as a set. */
  function IdSet(pubs: seq<Pub>): (r: set<string>)
    ensures forall x :: x in r <==> exists i :: 0 <= i < |pubs| && pubs[i].id == x
  {
    set i | 0 <= i < |pubs| :: pubs[i].id
  }

  /** `unique_ids` after the loop: the ids of the publications mentioning the award. */
  function UniqueIds(data: seq<Pub>, term: string): set<string> {
    IdSet(Filter(data, p => Mentions(term, p)))
  }

  /** The set-building loop: `unique_ids.add(pub["id"])` for each matching publication. */
  method CollectUniqueIds(data: seq<Pub>, term: string) returns (ids: set<string>)
    ensures ids == UniqueIds(data, term)
  {
    ids := {};
    for i := 0 to |data|
      invariant ids == IdSet(Filter(data[..i], p => Mentions(term, p)))
    {
      assert data[..i + 1][..i] == data[..i];
      IdSetSnoc(Filter(data[..i], p => Mentions(term, p)), data[i]);
      if InAwards(term, data[i]) || InText(term, data[i]) {
        ids := ids + {data[i].id};
      }
    }
    assert data[..|data|] == data;
  }

  lemma IdSetSnoc(pubs: seq<Pub>, p: Pub)
    ensures IdSet(pubs + [p]) == IdSet(pubs) + {p.id}
  {
    assert forall i :: 0 <= i < |pubs| ==> (pubs + [p])[i] == pubs[i];
    assert (pubs + [p])[|pubs|] == p;
  }

  /** The three numbers the report prints for one award. */
  method Tally(data: seq<Pub>, term: string) returns (countAwards: nat, countText: nat, unique: nat)
    ensures countAwards == |Filter(data, p => InAwards(term, p))|
    ensures countText == |Filter(data, p => InText(term, p))|
    ensures unique == |UniqueIds(data, term)|
  {
    countAwards := Count(data, p => InAwards(term, p));
    countText := Count(data, p => InText(term, p));
    var ids := CollectUniqueIds(data, term);
    unique := |ids|;
  }

  /** An id is counted exactly when some publication with that id mentions the award. */
  lemma UniqueIdsMembers(data: seq<Pub>, term: string, x: string)
    ensures x in UniqueIds(data, term) <==> exists i :: 0 <= i < |data| && Mentions(term, data[i]) && data[i].id == x
  {
    var f := Filter(data, p => Mentions(term, p));
    if x in UniqueIds(data, term) {
      var j :| 0 <= j < |f| && f[j].id == x;
      var i :| 0 <= i < |data| && data[i] == f[j];
    }
    if exists i :: 0 <= i < |data| && Mentions(term, data[i]) && data[i].id == x {
      var i :| 0 <= i < |data| && Mentions(term, data[i]) && data[i].id == x;
      assert data[i] in f;
    }
  }

  /** A set of ids is never larger than the sequence it comes from. */
  lemma {:induction false} IdSetSize(pubs: seq<Pub>)
    ensures |IdSet(pubs)| <= |pubs|
    decreases |pubs|
  {
    if pubs != [] {
      var q := pubs[..|pubs| - 1];
      IdSetSize(q);
      assert q + [pubs[|pubs| - 1]] == pubs;
      IdSetSnoc(q, pubs[|pubs| - 1]);
    }
  }

  /**
   * The unique total never exceeds the two counts together: every counted
   * publication names the award in its awards array or in its description.
   */
  lemma UniqueAtMostSum(data: seq<Pub>, term: string)
    ensures |UniqueIds(data, term)| <= Count(data, p => InAwards(term, p)) + Count(data, p => InText(term, p))
  {
    var fa := Filter(data, p => InAwards(term, p));
    var ft := Filter(data, p => InText(term, p));
    var a := IdSet(fa);
    var t := IdSet(ft);
    var u := UniqueIds(data, term);
    forall x | x in u ensures x in a + t {
      UniqueIdsMembers(data, term, x);
      var i :| 0 <= i < |data| && Mentions(term, data[i]) && data[i].id == x;
      if InAwards(term, data[i]) {
        assert data[i] in fa;
      } else {
        assert data[i] in ft;
      }
    }
    SubsetSize(u, a + t);
    assert |a + t| + |a * t| == |a| + |t|;
    IdSetSize(fa);
    IdSetSize(ft);
  }

  /** The unique total is at least each of the two counts' id sets. */
  lemma UniqueAtLeastEach(data: seq<Pub>, term: string)
    ensures IdSet(Filter(data, p => InAwards(term, p))) <= UniqueIds(data, term)
    ensures IdSet(Filter(data, p => InText(term, p))) <= UniqueIds(data, term)
  {
    forall x | x in IdSet(Filter(data, p => InAwards(term, p))) + IdSet(Filter(data, p => InText(term, p)))
      ensures x in UniqueIds(data, term)
    {
      var fa := Filter(data, p => InAwards(term, p));
      var ft := Filter(data, p => InText(term, p));
      if x in IdSet(fa) {
        var j :| 0 <= j < |fa| && fa[j].id == x;
        var i :| 0 <= i < |data| && data[i] == fa[j];
        UniqueIdsMembers(data, term, x);
      } else {
        var j :| 0 <= j < |ft| && ft[j].id == x;
        var i :| 0 <= i < |data| && data[i] == ft[j];
        UniqueIdsMembers(data, term, x);
      }
    }
  }

  lemma SubsetSize(a: set<string>, b: set<string>)
    requires a <= b
    ensures |a| <= |b|
  {
    assert b == a + (b - a);
    assert a * (b - a) == {};
  }

  /** The listing prints exactly the publications the unique-id loop adds, so it is never shorter than the unique total. */
  lemma ListingIds(data: seq<Pub>, term: string)
    ensures |UniqueIds(data, term)| <= |Filter(data, p => Mentions(term, p))|
  {
    IdSetSize(Filter(data, p => Mentions(term, p)));
  }
}

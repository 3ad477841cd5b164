/**
 * The ingestion script (ingest.py): field coercion, the light award
 * normaliser, the sorted award set of a publication, the " | " awards string,
 * the chunk metadata of each publication, and the batched submission of the
 * chunk list to the vector store.
 */
module Ingest {
  import opened Wrappers
  import opened Text
  import opened Lists
  import opened Ordering

  // ---------------------------------------------------------------------
  // clean_text
  // ---------------------------------------------------------------------

  /** The lower-cased spellings `clean_text` treats as missing. */
  const Blanks: set<string> := {"none", "null", "n/a"}

  /** A value `clean_text` replaces by its default: None, "", or a blank spelling in any case. */
  predicate IsBlank(value: Option<string>) {
    value.None? || value.value == [] || Lower(value.value) in Blanks
  }

  /**
   * `clean_text(value, default)`: the default for a blank value, the stripped
   * value otherwise; never None.
   */
  function CleanText(value: Option<string>, default: string): (r: string)
    ensures IsBlank(value) ==> r == default
    ensures !IsBlank(value) ==> Trimmed(r) && CharsFrom(r, value.value)
    ensures !IsBlank(value) && Trimmed(value.value) ==> r == value.value
    ensures !IsBlank(value) ==> r == Strip(value.value)
  {
    if IsBlank(value) then default else Strip(value.value)
  }

  /** A trimmed default makes every result trimmed. */
  lemma CleanTextTrimmed(value: Option<string>, default: string)
    requires Trimmed(default)
    ensures Trimmed(CleanText(value, default))
  {
  }

  /**
   * The blank test looks at the value before stripping it, so a value of
   * whitespace only gives "" rather than the default.
   */
  lemma CleanTextWhitespace(s: string, default: string)
    requires s != [] && AllSpace(s)
    ensures CleanText(Some(s), default) == ""
  {
    var l := Lower(s);
    assert IsSpace(l[0]);
    assert l != "none" && l != "null" && l != "n/a";
  }

  // ---------------------------------------------------------------------
  // normalize_award
  // ---------------------------------------------------------------------

  /**
   * `normalize_award(award)`: None for a missing or empty award; otherwise
   * stripped, lower-cased and with whitespace runs collapsed to one space.
   */
  function NormalizeAward(award: Option<string>): (r: Option<string>)
    ensures r.None? <==> award.None? || award.value == []
    ensures r.Some? ==> Trimmed(r.value) && SingleSpaced(r.value) && NoUpper(r.value)
    ensures r.Some? ==> |r.value| <= |award.value| && (r.value == [] <==> AllSpace(award.value))
    ensures r.Some? ==> Words(r.value) == Words(Lower(award.value))
  {
    if award.None? || award.value == [] then None
    else
      NormalizeFacts(award.value);
      NormalizeWords(award.value);
      Some(CollapseSpaces(Lower(Strip(award.value))))
  }

  /** Normalising keeps the words of the lower-cased award. */
  lemma NormalizeWords(s: string)
    ensures Words(CollapseSpaces(Lower(Strip(s)))) == Words(Lower(s))
  {
    StripLower(s);
    WordsStrip(Lower(s));
  }

  lemma NormalizeFacts(s: string)
    ensures var c := CollapseSpaces(Lower(Strip(s)));
      && Trimmed(c) && NoUpper(c) && |c| <= |s| && (c == [] <==> AllSpace(s))
  {
    var t := Strip(s);
    var a := Lower(t);
    assert |a| == |t| && (a == [] <==> t == []);
    LowerTrimmed(t);
    CollapseTrimmed(a);
    CollapseNoUpper(a);
  }

  /** Normalising a non-empty result again gives it back. */
  lemma NormalizeIdempotent(award: string, r: string)
    requires NormalizeAward(Some(award)) == Some(r) && r != []
    ensures NormalizeAward(Some(r)) == Some(r)
  {
    assert Strip(r) == r;
    LowerNoUpper(r);
    CollapseSingleSpaced(r);
  }

  /** Upper and lower case spellings normalise alike. */
  lemma NormalizeIgnoresCase(award: string)
    ensures NormalizeAward(Some(Lower(award))) == NormalizeAward(Some(award))
  {
    StripLower(award);
    LowerIdempotent(Strip(award));
  }

  // ---------------------------------------------------------------------
  // extract_awards
  // ---------------------------------------------------------------------

  /** The tags added whenever the lower-cased description contains them. */
  const Tags: seq<string> := ["best overall project", "most innovative project", "best rag implementation", "best use of llms"]

  /** The normalisation of a non-empty capture. */
  function NormalizeCapture(m: string): string
    requires m != []
  {
    NormalizeAward(Some(m)).value
  }

  /**
   * The set `extract_awards` builds: the JSON tags as they are and, for a
   * non-empty description, the normalised non-empty captures of the four
   * description patterns and the hard-coded tags the description contains.
   */
  function AwardSet(desc: string, json: seq<string>, captures: seq<string>): set<string> {
    (set j | j in json)
    + (if desc != [] then (set m | m in captures && m != [] :: NormalizeCapture(m)) else {})
    + (if desc != [] then (set t | t in Tags && Contains(Lower(desc), t)) else {})
  }

  /** `sorted(a for a in awards if a)`. */
  ghost function ExtractedAwards(desc: string, json: seq<string>, captures: seq<string>): seq<string> {
    SortedListing(AwardSet(desc, json, captures) - {""})
  }

  /**
   * `extract_awards(desc, json_awards)`: `json` is `json_awards or []` and
   * `captures` the matches of the four description patterns, in pattern order.
   */
  method ExtractAwards(desc: string, json: seq<string>, captures: seq<string>) returns (r: seq<string>)
    ensures r == ExtractedAwards(desc, json, captures)
  {
    var awards := set j | j in json;
    if desc != [] {
      var descLower := Lower(desc);
      awards := awards + set m | m in captures && m != [] :: NormalizeCapture(m);
      var tags := FoundTags(descLower);
      awards := awards + tags;
    }
    r := Sort(awards - {""});
  }

  /** The four `if tag in desc_lower: awards.add(tag)` tests. */
  method FoundTags(descLower: string) returns (r: set<string>)
    ensures r == set t | t in Tags && Contains(descLower, t)
  {
    r := {};
    if Contains(descLower, Tags[0]) { r := r + {Tags[0]}; }
    if Contains(descLower, Tags[1]) { r := r + {Tags[1]}; }
    if Contains(descLower, Tags[2]) { r := r + {Tags[2]}; }
    if Contains(descLower, Tags[3]) { r := r + {Tags[3]}; }
    FoundAmong(descLower, Tags, r);
  }

  lemma FoundAmong(text: string, ts: seq<string>, r: set<string>)
    requires |ts| == 4
    requires forall t :: t in r <==>
      ((t == ts[0] && Contains(text, ts[0])) || (t == ts[1] && Contains(text, ts[1])) ||
       (t == ts[2] && Contains(text, ts[2])) || (t == ts[3] && Contains(text, ts[3])))
    ensures r == set t | t in ts && Contains(text, t)
  {
    forall t ensures t in r <==> t in ts && Contains(text, t) {
      if t in ts { var k :| 0 <= k < |ts| && ts[k] == t; }
    }
  }

  /** The result is strictly increasing, hence sorted and free of duplicates, and holds no empty string. */
  lemma ExtractedAwardsSorted(desc: string, json: seq<string>, captures: seq<string>)
    ensures var r := ExtractedAwards(desc, json, captures);
      StrictlySorted(r) && NoDuplicates(r) && forall i :: 0 <= i < |r| ==> r[i] != []
  {
    var r := ExtractedAwards(desc, json, captures);
    forall i, j | 0 <= i < j < |r| ensures r[i] != r[j] {
      if r[i] == r[j] { LessIrreflexive(r[i]); }
    }
  }

  /** Membership in the result, exactly. */
  lemma ExtractedAwardsExact(desc: string, json: seq<string>, captures: seq<string>, a: string)
    ensures a in ExtractedAwards(desc, json, captures) <==>
      a != [] && (
        || a in json
        || (desc != [] && exists i :: 0 <= i < |captures| && captures[i] != [] && NormalizeCapture(captures[i]) == a)
        || (desc != [] && a in Tags && Contains(Lower(desc), a)))
  {
    var r := ExtractedAwards(desc, json, captures);
    var s := AwardSet(desc, json, captures);
    assert a in r <==> a in s && a != [];
    AwardSetMembers(desc, json, captures, a);
  }

  lemma AwardSetMembers(desc: string, json: seq<string>, captures: seq<string>, a: string)
    ensures a in AwardSet(desc, json, captures) <==>
      || a in json
      || (desc != [] && exists i :: 0 <= i < |captures| && captures[i] != [] && NormalizeCapture(captures[i]) == a)
      || (desc != [] && a in Tags && Contains(Lower(desc), a))
  {
    var caps := set m | m in captures && m != [] :: NormalizeCapture(m);
    if a in caps {
      var m :| m in captures && m != [] && NormalizeCapture(m) == a;
      var i :| 0 <= i < |captures| && captures[i] == m;
    }
  }

  /** JSON tags are kept unchanged. */
  lemma JsonAwardsKept(desc: string, json: seq<string>, captures: seq<string>, a: string)
    requires a in json && a != []
    ensures a in ExtractedAwards(desc, json, captures)
  {
    ExtractedAwardsExact(desc, json, captures, a);
  }

  /** A hard-coded tag the description mentions, in any case, is in the result. */
  lemma TagAwardsFound(desc: string, json: seq<string>, captures: seq<string>, t: string)
    requires t in Tags && Contains(Lower(desc), t)
    ensures t in ExtractedAwards(desc, json, captures)
  {
    assert desc != [] by {
      var i := ContainsWitness(Lower(desc), t);
      assert |Lower(desc)| >= |t| > 0;
    }
    ExtractedAwardsExact(desc, json, captures, t);
  }

  // ---------------------------------------------------------------------
  // awards_str
  // ---------------------------------------------------------------------

  const Separator: string := " | "

  /** `" | ".join(all_awards) if all_awards else "none"`. */
  function AwardsStr(all: seq<string>): (s: string)
    ensures all == [] ==> s == "none"
    ensures |all| == 1 ==> s == all[0]
  {
    if all == [] then "none" else Join(all, Separator)
  }

  /** Splitting the string on " | " gives the awards back when none of them holds a '|'. */
  lemma AwardsStrSplit(all: seq<string>)
    requires all != []
    requires forall a :: a in all ==> '|' !in a
    ensures SplitOn(AwardsStr(all), Separator) == all
  {
    SplitOnJoin(all, Separator, 1);
  }

  /** The string is ambiguous: a single award spelled "none" reads like no awards. */
  lemma AwardsStrNone()
    ensures AwardsStr(["none"]) == AwardsStr([])
  {
  }

  // ---------------------------------------------------------------------
  // batch_add_documents
  // ---------------------------------------------------------------------

  /** The slices `documents[i:i + size]` for `i` in `range(0, len(documents), size)`. */
  function Batches<T>(docs: seq<T>, size: nat): seq<seq<T>>
    requires size > 0
    decreases |docs|
  {
    if docs == [] then []
    else if |docs| <= size then [docs]
    else [docs[..size]] + Batches(docs[size..], size)
  }

  /**
   * The batches partition the documents: concatenated in order they give the
   * list back, none is empty, and all but the last hold exactly `size`.
   */
  lemma {:induction false} BatchesPartition<T>(docs: seq<T>, size: nat)
    requires size > 0
    ensures var r := Batches(docs, size);
      && Concat(r) == docs
      && (forall k :: 0 <= k < |r| ==> 0 < |r[k]| <= size)
      && (forall k :: 0 <= k < |r| - 1 ==> |r[k]| == size)
    decreases |docs|
  {
    if docs == [] {
    } else if |docs| <= size {
      assert Concat([docs]) == docs + Concat([]);
    } else {
      var rest := Batches(docs[size..], size);
      BatchesPartition(docs[size..], size);
      ConcatCons(docs[..size], rest);
      assert docs[..size] + docs[size..] == docs;
      var r := [docs[..size]] + rest;
      assert forall k :: 0 < k < |r| ==> r[k] == rest[k - 1];
    }
  }

  /** The batches still to come once the loop index is `i`. */
  function BatchesFrom<T>(docs: seq<T>, i: nat, size: nat): seq<seq<T>>
    requires size > 0
  {
    if i < |docs| then Batches(docs[i..], size) else []
  }

  /** The first batch from position `i` ends at `hi`, the next batch boundary or the end. */
  lemma BatchesStep<T>(docs: seq<T>, i: nat, hi: nat, size: nat)
    requires size > 0 && i < |docs| && hi == (if i + size <= |docs| then i + size else |docs|)
    ensures BatchesFrom(docs, i, size) == [docs[i..hi]] + BatchesFrom(docs, i + size, size)
  {
    var d := docs[i..];
    if hi < |docs| {
      assert d[..size] == docs[i..hi];
      assert d[size..] == docs[hi..];
    } else {
      assert d == docs[i..hi];
    }
  }

  /** The concatenation of a list of lists. */
  function Concat<T>(xs: seq<seq<T>>): seq<T>
    decreases |xs|
  {
    if xs == [] then [] else xs[0] + Concat(xs[1..])
  }

  lemma ConcatCons<T>(x: seq<T>, xs: seq<seq<T>>)
    ensures Concat([x] + xs) == x + Concat(xs)
  {
    assert ([x] + xs)[1..] == xs;
  }

  /**
   * `batch_add_documents(vectorstore, documents, batch_size)`: the batches
   * handed to `add_documents`, in order. A zero batch size is the error
   * `range()` raises; a negative one submits nothing.
   */
  method BatchAddDocuments<T>(documents: seq<T>, batchSize: int) returns (submitted: Option<seq<seq<T>>>)
    ensures batchSize == 0 <==> submitted.None?
    ensures batchSize < 0 ==> submitted == Some([])
    ensures batchSize > 0 ==> submitted == Some(Batches(documents, batchSize))
  {
    if batchSize == 0 {
      return None;
    }
    var out: seq<seq<T>> := [];
    if batchSize > 0 {
      out := SliceBatches(documents, batchSize);
    }
    return Some(out);
  }

  /** The `for i in range(0, total, size)` loop for a positive size. */
  method SliceBatches<T>(documents: seq<T>, size: nat) returns (out: seq<seq<T>>)
    requires size > 0
    ensures out == Batches(documents, size)
  {
    out := [];
    var total := |documents|;
    var i := 0;
    assert documents[0..] == documents;
    while i < total
      invariant 0 <= i
      invariant out + BatchesFrom(documents, i, size) == Batches(documents, size)
      decreases total - i
    {
      var hi := if i + size <= total then i + size else total;
      var batch := documents[i..hi];
      BatchesStep(documents, i, hi, size);
      AppendAssoc(out, batch, BatchesFrom(documents, i + size, size));
      out := out + [batch];
      i := i + size;
    }
    assert out + [] == out;
  }

  lemma AppendAssoc<T>(out: seq<seq<T>>, b: seq<T>, rest: seq<seq<T>>)
    ensures out + ([b] + rest) == (out + [b]) + rest
  {
  }

  // ---------------------------------------------------------------------
  // Documents and their metadata
  // ---------------------------------------------------------------------

  /** A loaded publication record; a None field is a missing key or a null. */
  datatype Publication = Publication(
    id: Option<string>, username: Option<string>, title: Option<string>, license: Option<string>,
    description: Option<string>, awards: seq<string>)

  datatype Metadata = Metadata(
    id: string, username: string, title: string, license: string, awards: string, source: string)

  /** A `Document`: a chunk of text and its metadata, with the chunk's index and the publication's chunk count. */
  datatype Chunk = Chunk(content: string, meta: Metadata, chunkIndex: nat, totalChunks: nat)

  /** The metadata every chunk of the publication carries. */
  function PubMetadata(pub: Publication, awardsStr: string): (m: Metadata)
    ensures m.awards == awardsStr && m.source == "readytensor_publication"
    ensures m.title == CleanText(pub.title, "Untitled Project") && m.username == CleanText(pub.username, "anonymous")
  {
    Metadata(CleanText(pub.id, ""), CleanText(pub.username, "anonymous"),
             CleanText(pub.title, "Untitled Project"), CleanText(pub.license, "unknown"),
             awardsStr, "readytensor_publication")
  }

  /** The text before stripping: a newline, four labelled lines and a closing newline with indentation. */
  function RawText(title: string, author: string, desc: string, awardsStr: string): string {
    "\n" + Body(title, author, desc, awardsStr) + "\n        "
  }

  function Body(title: string, author: string, desc: string, awardsStr: string): string {
    "Title: " + title + "\nAuthor: " + author + "\nDescription: " + desc + "\nAwards: " + awardsStr
  }

  /** `full_text`, the f-string stripped. */
  function FullText(title: string, author: string, desc: string, awardsStr: string): string {
    Strip(RawText(title, author, desc, awardsStr))
  }

  /** Stripping removes only the padding when the awards string ends in a non-space. */
  lemma FullTextBody(title: string, author: string, desc: string, awardsStr: string)
    requires awardsStr != [] && !IsSpace(awardsStr[|awardsStr| - 1])
    ensures FullText(title, author, desc, awardsStr) == Body(title, author, desc, awardsStr)
  {
    var b := Body(title, author, desc, awardsStr);
    assert b[0] == 'T';
    assert b[|b| - 1] == awardsStr[|awardsStr| - 1];
    var pad := "\n        ";
    assert AllSpace(pad);
    StripPadded("\n", b, pad);
  }

  /** The awards string of an ingested publication ends in a non-space unless a JSON tag does. */
  lemma AwardsStrEnds(all: seq<string>)
    requires forall i :: 0 <= i < |all| ==> all[i] != [] && !IsSpace(all[i][|all[i]| - 1])
    ensures var s := AwardsStr(all); s != [] && !IsSpace(s[|s| - 1])
  {
    if all != [] { JoinLast(all, Separator); }
  }

  lemma {:induction false} JoinLast(parts: seq<string>, sep: string)
    requires parts != [] && parts[|parts| - 1] != []
    ensures var s := Join(parts, sep); |s| >= |parts[|parts| - 1]| && s[|s| - 1] == parts[|parts| - 1][|parts[|parts| - 1]| - 1]
    decreases |parts|
  {
    if |parts| > 1 {
      JoinLast(parts[1..], sep);
    }
  }

  /** The chunks of one publication: chunk `i` of `n` carries the text piece and the shared metadata. */
  function PubChunks(meta: Metadata, pieces: seq<string>): (r: seq<Chunk>)
    ensures |r| == |pieces|
    ensures forall i :: 0 <= i < |r| ==>
      r[i].content == pieces[i] && r[i].meta == meta && r[i].chunkIndex == i && r[i].totalChunks == |pieces|
  {
    seq(|pieces|, i requires 0 <= i < |pieces| => Chunk(pieces[i], meta, i, |pieces|))
  }

  /** The chunks of a publication whose metadata sits on every chunk, with a distinct index each. */
  lemma PubChunksIndexed(meta: Metadata, pieces: seq<string>)
    ensures var r := PubChunks(meta, pieces);
      && (forall i, j :: 0 <= i < j < |r| ==> r[i].chunkIndex != r[j].chunkIndex && r[i].meta == r[j].meta)
      && Map(r, (c: Chunk) => c.content) == pieces
  {
  }

  /**
   * What the loop over publications contributes for `pub`: `captures` gives
   * the matches of the description patterns in a text, `split` the text
   * splitter's pieces of a full text.
   */
  ghost function IngestPub(pub: Publication, captures: string -> seq<string>, split: string -> seq<string>): seq<Chunk> {
    var desc := CleanText(pub.description, "");
    var all := ExtractedAwards(desc, pub.awards, captures(desc));
    var meta := PubMetadata(pub, AwardsStr(all));
    PubChunks(meta, split(FullText(meta.title, meta.username, desc, meta.awards)))
  }

  ghost function IngestAll(pubs: seq<Publication>, captures: string -> seq<string>, split: string -> seq<string>): seq<Chunk>
    decreases |pubs|
  {
    if pubs == [] then []
    else IngestAll(pubs[..|pubs| - 1], captures, split) + IngestPub(pubs[|pubs| - 1], captures, split)
  }

  /** The `documents` list `ingest()` builds before submitting it in batches. */
  method IngestDocuments(pubs: seq<Publication>, captures: string -> seq<string>, split: string -> seq<string>)
    returns (documents: seq<Chunk>)
    ensures documents == IngestAll(pubs, captures, split)
  {
    documents := [];
    for p := 0 to |pubs|
      invariant documents == IngestAll(pubs[..p], captures, split)
    {
      assert pubs[..p + 1][..p] == pubs[..p];
      var chunks := PubDocuments(pubs[p], captures, split);
      documents := documents + chunks;
    }
    assert pubs[..|pubs|] == pubs;
  }

  /** One iteration of the loop over publications. */
  method PubDocuments(pub: Publication, captures: string -> seq<string>, split: string -> seq<string>)
    returns (chunks: seq<Chunk>)
    ensures chunks == IngestPub(pub, captures, split)
    ensures forall k :: 0 <= k < |chunks| ==>
      var m := chunks[k].meta;
      && m.id == CleanText(pub.id, "") && m.username == CleanText(pub.username, "anonymous")
      && m.title == CleanText(pub.title, "Untitled Project") && m.license == CleanText(pub.license, "unknown")
      && m.source == "readytensor_publication"
      && chunks[k].chunkIndex == k && chunks[k].totalChunks == |chunks|
  {
    var desc := CleanText(pub.description, "");
    var all := ExtractAwards(desc, pub.awards, captures(desc));
    var awardsStr := AwardsStr(all);
    var meta := PubMetadata(pub, awardsStr);
    var pieces := split(FullText(meta.title, meta.username, desc, awardsStr));
    chunks := AppendChunks([], meta, pieces);
    PubChunksMeta(pub, awardsStr, pieces);
  }

  /** Every chunk of a publication carries its cleaned metadata fields, its index and the chunk count. */
  lemma PubChunksMeta(pub: Publication, awardsStr: string, pieces: seq<string>)
    ensures var chunks := PubChunks(PubMetadata(pub, awardsStr), pieces);
      forall k :: 0 <= k < |chunks| ==>
        var m := chunks[k].meta;
        && m.id == CleanText(pub.id, "") && m.username == CleanText(pub.username, "anonymous")
        && m.title == CleanText(pub.title, "Untitled Project") && m.license == CleanText(pub.license, "unknown")
        && m.source == "readytensor_publication"
        && chunks[k].chunkIndex == k && chunks[k].totalChunks == |chunks|
  {
  }

  /** The loop over the enumerated chunks, appending one `Document` per chunk to `documents`. */
  method AppendChunks(documents: seq<Chunk>, meta: Metadata, pieces: seq<string>) returns (r: seq<Chunk>)
    ensures r == documents + PubChunks(meta, pieces)
  {
    r := documents;
    for i := 0 to |pieces|
      invariant r == documents + PubChunks(meta, pieces)[..i]
    {
      assert PubChunks(meta, pieces)[..i + 1] == PubChunks(meta, pieces)[..i] + [Chunk(pieces[i], meta, i, |pieces|)];
      r := r + [Chunk(pieces[i], meta, i, |pieces|)];
    }
    assert PubChunks(meta, pieces)[..|pieces|] == PubChunks(meta, pieces);
  }
}

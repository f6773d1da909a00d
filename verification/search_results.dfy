/**
 * Shaping the matches of a query into results (`search`) and the page the
 * server returns (`get_formatted_results`). Tokenising and stemming the
 * query is left out: the query arrives as its list of terms. The scores are
 * abstract: `key` gives each document the pair the results are sorted by
 * (cosine similarity, then the tf-idf average) and `vector` its tf-idf
 * values per query term. The order in which the set of matches is iterated
 * is the parameter `listing`.
 */
module SearchResults {
  import opened Wrappers
  import opened Seqs
  import opened BooleanSearch

  /** One result tuple `(doc_id, url, score, tf_idf_info)`. */
  datatype Hit = Hit(docId: int, url: string, score: real, info: map<string, real>)

  type Key = (real, real)

  /** Python's tuple order on score pairs. */
  predicate KeyLess(a: Key, b: Key) {
    a.0 < b.0 || (a.0 == b.0 && a.1 < b.1)
  }

  /** `s` is non-increasing by `key`. */
  predicate Descending(s: seq<int>, key: int -> Key) {
    forall i, j :: 0 <= i < j < |s| ==> !KeyLess(key(s[i]), key(s[j]))
  }

  /** Places `x` after every entry whose key is not below its own. */
  function InsertDesc(x: int, s: seq<int>, key: int -> Key): (r: seq<int>)
    requires Descending(s, key)
    ensures Descending(r, key)
    ensures multiset(r) == multiset(s) + multiset{x}
    ensures |r| == |s| + 1 && (|s| == 0 || r[0] == x || r[0] == s[0])
  {
    if |s| == 0 then [x]
    else if KeyLess(key(s[0]), key(x)) then
      assert forall j :: 0 <= j < |s| ==> !KeyLess(key(s[0]), key(s[j]));
      [x] + s
    else
      var rest := InsertDesc(x, s[1..], key);
      assert s == [s[0]] + s[1..];
      [s[0]] + rest
  }

  /** `scores.sort(key=..., reverse=True)`: a stable sort, highest key first. */
  function SortDesc(s: seq<int>, key: int -> Key): (r: seq<int>)
    ensures Descending(r, key)
    ensures multiset(r) == multiset(s)
  {
    if |s| == 0 then []
    else
      assert s == s[..|s| - 1] + [s[|s| - 1]];
      InsertDesc(s[|s| - 1], SortDesc(s[..|s| - 1], key), key)
  }

  /** A rearrangement of a duplicate-free sequence is duplicate-free and has the same elements. */
  lemma PermutationNoDup(a: seq<int>, b: seq<int>)
    requires multiset(a) == multiset(b) && NoDup(a)
    ensures NoDup(b) && Elems(b) == Elems(a)
  {
    forall i, j | 0 <= i < j < |b|
      ensures b[i] != b[j]
    {
      if b[i] == b[j] {
        var x := b[i];
        assert multiset(b)[x] >= 2 by {
          assert b == b[..i] + [x] + b[i + 1..j] + [x] + b[j + 1..];
        }
        CountAtMostOne(a, x);
      }
    }
    forall x | x in Elems(b)
      ensures x in Elems(a)
    {
      assert x in multiset(b);
    }
    forall x | x in Elems(a)
      ensures x in Elems(b)
    {
      assert x in multiset(a);
    }
  }

  /** A duplicate-free sequence holds each value at most once. */
  lemma {:induction false} CountAtMostOne(a: seq<int>, x: int)
    requires NoDup(a)
    ensures multiset(a)[x] <= 1
    decreases |a|
  {
    if |a| > 0 {
      assert a == [a[0]] + a[1..];
      CountAtMostOne(a[1..], x);
      if a[0] == x {
        assert x !in a[1..];
      }
    }
  }

  /** The document ids of some hits, in order. */
  function DocIds(hits: seq<Hit>): (r: seq<int>)
    ensures |r| == |hits| && forall i :: 0 <= i < |hits| ==> r[i] == hits[i].docId
  {
    seq(|hits|, i requires 0 <= i < |hits| => hits[i].docId)
  }

  /**
   * The list comprehension building the result tuples: `self.urls[doc_id]`
   * raises for a document without a URL, so that is a failure.
   */
  function ToHits(urls: map<int, string>, docs: seq<int>, score: int -> real, vector: int -> map<string, real>)
    : (r: Option<seq<Hit>>)
    ensures r.Some? <==> forall i :: 0 <= i < |docs| ==> docs[i] in urls
    ensures r.Some? ==> |r.value| == |docs| && DocIds(r.value) == docs
    ensures r.Some? ==> forall i :: 0 <= i < |docs| ==>
      r.value[i].url == urls[docs[i]] && r.value[i].score == score(docs[i]) && r.value[i].info == vector(docs[i])
  {
    if forall i :: 0 <= i < |docs| ==> docs[i] in urls then
      var hits := seq(|docs|, i requires 0 <= i < |docs| => Hit(docs[i], urls[docs[i]], score(docs[i]), vector(docs[i])));
      assert DocIds(hits) == docs;
      Some(hits)
    else None
  }

  /** The unranked score and the empty term information. */
  function Unit(d: int): real {
    1.0
  }

  function NoInfo(d: int): map<string, real> {
    map[]
  }

  /**
   * `search` on the strict matches: `[]` for a query without terms or
   * without matches; unranked, each match with score 1.0 and no term
   * information; ranked, the matches by decreasing `key`, each with its
   * cosine similarity and its vector.
   */
  function Search(ix: Index, urls: map<int, string>, terms: seq<string>, useRanking: bool,
                  listing: seq<int>, key: int -> Key, vector: int -> map<string, real>)
    : (r: Option<seq<Hit>>)
    requires NoDup(listing) && Elems(listing) == StrictResult(ix, terms)
    ensures |terms| == 0 ==> r == Some([])
    ensures StrictResult(ix, terms) == {} ==> r == Some([])
    ensures r.None? <==> !(StrictResult(ix, terms) <= urls.Keys)
    ensures r.Some? ==> NoDup(DocIds(r.value)) && Elems(DocIds(r.value)) == StrictResult(ix, terms)
    ensures r.Some? ==> forall i :: 0 <= i < |r.value| ==> r.value[i].url == urls[r.value[i].docId]
    ensures r.Some? && !useRanking ==> forall i :: 0 <= i < |r.value| ==> r.value[i].score == 1.0 && r.value[i].info == map[]
    ensures r.Some? && useRanking ==> Descending(DocIds(r.value), key)
    ensures r.Some? && useRanking ==> forall i :: 0 <= i < |r.value| ==>
      r.value[i].score == key(r.value[i].docId).0 && r.value[i].info == vector(r.value[i].docId)
  {
    if |terms| == 0 then Some([])
    else if listing == [] then Some([])
    else
      assert listing[0] in Elems(listing);
      var docs := if useRanking then SortDesc(listing, key) else listing;
      var score: int -> real := if useRanking then d => key(d).0 else Unit;
      var info := if useRanking then vector else NoInfo;
      HitsOfMatches(urls, listing, docs, score, info);
      ToHits(urls, docs, score, info)
  }

  /** The hits built from a rearrangement of the matches hold each match once, and exist exactly when every match has a URL. */
  lemma HitsOfMatches(urls: map<int, string>, listing: seq<int>, docs: seq<int>,
                      score: int -> real, vector: int -> map<string, real>)
    requires NoDup(listing) && multiset(docs) == multiset(listing)
    ensures var r := ToHits(urls, docs, score, vector);
      && (r.None? <==> !(Elems(listing) <= urls.Keys))
      && (r.Some? ==> NoDup(DocIds(r.value)) && Elems(DocIds(r.value)) == Elems(listing))
      && (r.Some? ==> forall i :: 0 <= i < |r.value| ==> r.value[i].url == urls[r.value[i].docId])
      && (r.Some? ==> forall i :: 0 <= i < |r.value| ==>
            r.value[i].score == score(r.value[i].docId) && r.value[i].info == vector(r.value[i].docId))
  {
    PermutationNoDup(listing, docs);
    assert (forall i :: 0 <= i < |docs| ==> docs[i] in urls) <==> Elems(listing) <= urls.Keys by {
      assert forall d :: d in Elems(listing) <==> d in docs;
    }
  }

  /** The page size used when none is given. */
  const DefaultLimit: int := 5

  /** The response body's `results` and `total`; the query time is left out. */
  datatype Page = Page(results: seq<Hit>, total: nat)

  /**
   * `get_formatted_results`: the first `limit` results in order (Python's
   * `results[:limit]`), and the number of all results.
   */
  function FormattedResults(results: seq<Hit>, limit: int): (p: Page)
    ensures p.total == |results| && |p.results| <= p.total
    ensures p.results <= results
    ensures 0 <= limit ==> |p.results| == if limit < |results| then limit else |results|
  {
    Page(PyPrefix(results, limit), |results|)
  }

  /** A failing search makes the whole response fail. */
  function Respond(search: Option<seq<Hit>>, limit: int): (r: Option<Page>)
    ensures r.Some? <==> search.Some?
    ensures r.Some? ==> r.value == FormattedResults(search.value, limit)
  {
    match search
    case None => None
    case Some(results) => Some(FormattedResults(results, limit))
  }

  /** The first search (root `search.py`) sorts by cosine similarity alone. */
  function CosineOnly(score: int -> real): int -> Key {
    d => (score(d), 0.0)
  }

  /** Sorting by the cosine alone is sorting by the pair whose second part is constant. */
  lemma CosineOnlyDescending(s: seq<int>, score: int -> real)
    requires Descending(s, CosineOnly(score))
    ensures forall i, j :: 0 <= i < j < |s| ==> score(s[j]) <= score(s[i])
  {
    forall i, j | 0 <= i < j < |s|
      ensures score(s[j]) <= score(s[i])
    {
      assert !KeyLess(CosineOnly(score)(s[i]), CosineOnly(score)(s[j]));
    }
  }

  /** With a positive limit the page is never empty when there are results. */
  lemma PageShowsResults(results: seq<Hit>, limit: int)
    requires 0 < limit && |results| > 0
    ensures |FormattedResults(results, limit).results| > 0
    ensures FormattedResults(results, limit).results[0] == results[0]
  {
  }
}

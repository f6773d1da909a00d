/**
 * The query side's `IndexReader`: the URL map loaded from the saved
 * mapping, the token positions, the index text and an LRU cache of parsed
 * postings. A lookup answers from the cache when it can; otherwise it scans
 * the index text at the token's stored position, parses the span it cuts
 * out and caches the result. Every failure is an empty postings list.
 *
 * `json.loads` of a postings span is the parameter `parse`; the files are
 * their contents, so a position is an index into the text.
 */
module IndexReader {
  import opened Wrappers
  import opened Seqs
  import opened Decimal
  import LruCache
  import opened PostingsScanner
  import opened IndexWriter
  import opened IdAllocator

  datatype Reader<P> = Reader(
    cache: LruCache.Cache<string, seq<P>>,
    positions: map<string, int>,
    text: string,
    urls: map<int, string>)

  predicate Valid<P>(rd: Reader<P>) {
    LruCache.Valid(rd.cache)
  }

  /**
   * The constructor's `{int(k): v for k, v in url_dict.items()}` over the
   * saved object's members in file order: a later key with the same value
   * wins, and a key `int` cannot read makes the constructor fail.
   */
  function LoadUrls(items: seq<(string, string)>): (r: Option<map<int, string>>)
    ensures r.Some? <==> forall i :: 0 <= i < |items| ==> ParseNat(items[i].0).Some?
    ensures r.Some? ==> forall i :: 0 <= i < |items| ==> ParseNat(items[i].0).value in r.value
    ensures r.Some? ==> forall n :: n in r.value ==> exists i :: 0 <= i < |items| && ParseNat(items[i].0) == Some(n)
  {
    if |items| == 0 then Some(map[])
    else
      var init := items[..|items| - 1];
      var (k, url) := items[|items| - 1];
      match LoadUrls(init)
      case None => None
      case Some(m) =>
        match ParseNat(k)
        case None => None
        case Some(n) =>
          var m' := m[n := url];
          assert forall j :: 0 <= j < |init| ==> init[j] == items[j];
          Some(m')
  }

  /** With keys that read as distinct numbers, each member's URL is found under its number. */
  lemma {:induction false} LoadUrlsDistinct(items: seq<(string, string)>, i: nat)
    requires i < |items| && LoadUrls(items).Some?
    requires forall a, b :: 0 <= a < b < |items| ==> ParseNat(items[a].0) != ParseNat(items[b].0)
    ensures LoadUrls(items).value[ParseNat(items[i].0).value] == items[i].1
    decreases |items|
  {
    var init := items[..|items| - 1];
    assert forall j :: 0 <= j < |init| ==> init[j] == items[j];
    if i < |items| - 1 {
      LoadUrlsDistinct(init, i);
    }
  }

  /**
   * The constructor: the URL map, the positions (none when the positions
   * file is missing) and an empty cache of `cacheSize` entries.
   */
  function Open<P>(cacheSize: int, savedUrls: seq<(string, string)>, positions: Option<map<string, int>>, text: string)
    : (r: Option<Reader<P>>)
    ensures r.Some? <==> LoadUrls(savedUrls).Some?
    ensures r.Some? ==> Valid(r.value) && r.value.cache.entries == map[] && r.value.cache.capacity == cacheSize
    ensures r.Some? ==> r.value.positions == positions.GetOr(map[]) && r.value.text == text
  {
    match LoadUrls(savedUrls)
    case None => None
    case Some(urls) => Some(Reader(LruCache.Empty(cacheSize), positions.GetOr(map[]), text, urls))
  }

  /** `total_documents`: the number of URLs loaded. */
  function TotalDocuments<P>(rd: Reader<P>): nat {
    |rd.urls|
  }

  /**
   * The index text's postings for `term`: the span scanned at its stored
   * position, parsed. `None` without a position or when the scan or the
   * parse fails.
   */
  function FromText<P>(rd: Reader<P>, parse: string -> Option<seq<P>>, term: string): (r: Option<seq<P>>)
    ensures term !in rd.positions ==> r.None?
    ensures r.Some? ==> ScanAt(rd.text, rd.positions[term]).Some? && parse(ScanAt(rd.text, rd.positions[term]).value) == r
  {
    if term !in rd.positions then None
    else
      match ScanAt(rd.text, rd.positions[term])
      case None => None
      case Some(span) => parse(span)
  }

  /**
   * `get_postings_for_term`: a cached list is returned as it is (and
   * promoted); otherwise the list read from the text, which is cached, or
   * `[]` with the cache left alone.
   */
  function Lookup<P>(rd: Reader<P>, parse: string -> Option<seq<P>>, term: string): (r: (seq<P>, Reader<P>))
    requires Valid(rd)
    ensures Valid(r.1)
    ensures r.1.positions == rd.positions && r.1.text == rd.text && r.1.urls == rd.urls
    ensures term in rd.cache.entries ==> r.0 == rd.cache.entries[term] && r.1.cache == LruCache.Get(rd.cache, term).1
    ensures term !in rd.cache.entries && FromText(rd, parse, term).None? ==> r == ([], rd)
    ensures term !in rd.cache.entries && FromText(rd, parse, term).Some? ==>
      r.0 == FromText(rd, parse, term).value && r.1.cache == LruCache.Put(rd.cache, term, r.0)
  {
    var (hit, c) := LruCache.Get(rd.cache, term);
    if hit.Some? then (hit.value, rd.(cache := c))
    else
      match FromText(rd, parse, term)
      case None => ([], rd)
      case Some(ps) => (ps, rd.(cache := LruCache.Put(c, term, ps)))
  }

  /** Every cached list is the one the index text holds for its term. */
  ghost predicate Coherent<P>(rd: Reader<P>, parse: string -> Option<seq<P>>) {
    forall t :: t in rd.cache.entries ==> FromText(rd, parse, t) == Some(rd.cache.entries[t])
  }

  /**
   * Over an unchanging index text the cache is invisible: a lookup returns
   * what the text holds for the term (`[]` when nothing can be read), and
   * the cache stays coherent. So the postings of a term behave as a fixed
   * map from terms to lists, whatever the cache's history.
   */
  lemma LookupCoherent<P>(rd: Reader<P>, parse: string -> Option<seq<P>>, term: string)
    requires Valid(rd) && Coherent(rd, parse)
    ensures Lookup(rd, parse, term).0 == FromText(rd, parse, term).GetOr([])
    ensures Coherent(Lookup(rd, parse, term).1, parse)
  {
  }

  /** An empty cache is coherent. */
  lemma OpenCoherent<P>(cacheSize: int, savedUrls: seq<(string, string)>, positions: Option<map<string, int>>,
                        text: string, parse: string -> Option<seq<P>>)
    requires Open<P>(cacheSize, savedUrls, positions, text).Some?
    ensures Coherent(Open<P>(cacheSize, savedUrls, positions, text).value, parse)
  {
  }

  /** A cached term is answered without looking at the index text or the positions. */
  lemma CachedIgnoresText<P>(rd: Reader<P>, parse: string -> Option<seq<P>>, term: string,
                             text: string, positions: map<string, int>)
    requires Valid(rd) && term in rd.cache.entries
    ensures Lookup(rd, parse, term).0 == Lookup(rd.(text := text, positions := positions), parse, term).0
  {
  }

  /**
   * The text before the ':' is never compared with the term: two uncached
   * terms stored at the same position get the same postings.
   */
  lemma SamePositionSamePostings<P>(rd: Reader<P>, parse: string -> Option<seq<P>>, t1: string, t2: string)
    requires Valid(rd) && t1 !in rd.cache.entries && t2 !in rd.cache.entries
    requires t1 in rd.positions && t2 in rd.positions && rd.positions[t1] == rd.positions[t2]
    ensures Lookup(rd, parse, t1).0 == Lookup(rd, parse, t2).0
  {
  }

  /** `has_term`: cached or positioned; the cache probe promotes a cached term. */
  function HasTerm<P>(rd: Reader<P>, term: string): (r: (bool, Reader<P>))
    requires Valid(rd)
    ensures r.0 <==> term in rd.cache.entries || term in rd.positions
    ensures Valid(r.1) && r.1.cache.entries == rd.cache.entries
    ensures r.1 == rd.(cache := LruCache.Get(rd.cache, term).1)
  {
    var (hit, c) := LruCache.Get(rd.cache, term);
    if hit.Some? then (true, rd.(cache := c))
    else (term in rd.positions, rd.(cache := c))
  }

  /** `get_document_frequency`: the length of the looked-up list, with the lookup's effect on the cache. */
  function DocumentFrequency<P>(rd: Reader<P>, parse: string -> Option<seq<P>>, term: string): (r: (nat, Reader<P>))
    requires Valid(rd)
    ensures Valid(r.1)
    ensures term !in rd.cache.entries && FromText(rd, parse, term).None? ==> r == (0, rd)
    ensures term in rd.cache.entries ==> r.0 == |rd.cache.entries[term]|
    ensures term !in rd.cache.entries && FromText(rd, parse, term).Some? ==> r.0 == |FromText(rd, parse, term).value|
  {
    var (ps, rd') := Lookup(rd, parse, term);
    (|ps|, rd')
  }

  /** `get_url`: the URL of an id, `None` for an unknown one. */
  function GetUrl<P>(rd: Reader<P>, id: int): (r: Option<string>)
    ensures r.Some? <==> id in rd.urls
    ensures r.Some? ==> r.value == rd.urls[id]
  {
    if id in rd.urls then Some(rd.urls[id]) else None
  }

  /** `items` lists the members of `m`, each key once, in some order. */
  predicate Lists(items: seq<(string, string)>, m: map<string, string>) {
    && NoDup(Firsts(items))
    && Elems(Firsts(items)) == m.Keys
    && forall i :: 0 <= i < |items| ==> items[i].0 in m && items[i].1 == m[items[i].0]
  }

  /** A listing of an inverse map has keys that read as distinct ids below the counter. */
  lemma ListedKeysDistinct(a: Allocator, order: seq<string>, m: map<string, string>, items: seq<(string, string)>)
    requires Numbers(a, order) && Inverts(a, m) && Lists(items, m)
    ensures forall i :: 0 <= i < |items| ==> ParseNat(items[i].0).Some? && ParseNat(items[i].0).value < a.next
    ensures forall x, y :: 0 <= x < y < |items| ==> ParseNat(items[x].0) != ParseNat(items[y].0)
  {
    NumbersDense(a, order);
    forall x, y | 0 <= x < y < |items|
      ensures ParseNat(items[x].0) != ParseNat(items[y].0)
    {
      assert Firsts(items)[x] == items[x].0 && Firsts(items)[y] == items[y].0;
    }
  }

  /** One name of an inverse map loads back under its id. */
  lemma LoadListedName(a: Allocator, order: seq<string>, m: map<string, string>, items: seq<(string, string)>, u: string)
    requires Numbers(a, order) && Inverts(a, m) && Lists(items, m) && u in a.ids
    ensures LoadUrls(items).Some?
    ensures a.ids[u] in LoadUrls(items).value && LoadUrls(items).value[a.ids[u]] == u
  {
    ListedKeysDistinct(a, order, m, items);
    var k := NatToString(a.ids[u]);
    assert k in Elems(Firsts(items));
    var i :| 0 <= i < |items| && Firsts(items)[i] == k;
    ParseNatToString(a.ids[u]);
    LoadUrlsDistinct(items, i);
  }

  /**
   * The saved URL mapping, listed member by member in any order, loads back
   * as the exact inverse of the allocator's map: every id below the counter
   * and nothing else, each with its URL.
   */
  lemma LoadSavedMapping(a: Allocator, order: seq<string>, items: seq<(string, string)>)
    requires Numbers(a, order) && Lists(items, SaveMapping(a, order))
    ensures LoadUrls(items).Some?
    ensures forall u :: u in a.ids ==> a.ids[u] in LoadUrls(items).value && LoadUrls(items).value[a.ids[u]] == u
    ensures forall n :: n in LoadUrls(items).value ==> 0 <= n < a.next
  {
    var m := SaveMapping(a, order);
    ListedKeysDistinct(a, order, m, items);
    forall u | u in a.ids
      ensures a.ids[u] in LoadUrls(items).value && LoadUrls(items).value[a.ids[u]] == u
    {
      LoadListedName(a, order, m, items, u);
    }
  }

  /**
   * Writer and reader agree: on the index written from `entries`, looking up
   * a token that is not cached yields the parse of exactly the postings text
   * written for it, and leaves it cached when the cache has room.
   */
  lemma ReadWrittenIndex<P>(entries: seq<(string, string)>, i: nat, parse: string -> Option<seq<P>>,
                            cache: LruCache.Cache<string, seq<P>>, urls: map<int, string>)
    requires NoDup(Firsts(entries)) && i < |entries|
    requires ':' !in entries[i].0 && IsBalancedSpan(entries[i].1)
    requires parse(entries[i].1).Some?
    requires LruCache.Valid(cache) && LruCache.Bounded(cache) && cache.capacity >= 1
    requires entries[i].0 !in cache.entries
    ensures var rd := Reader(cache, WriteIndex(entries).1, WriteIndex(entries).0, urls);
      var (ps, rd') := Lookup(rd, parse, entries[i].0);
      && ps == parse(entries[i].1).value
      && Lookup(rd', parse, entries[i].0).0 == ps
  {
    ScanWrittenIndex(entries, i);
    var rd := Reader(cache, WriteIndex(entries).1, WriteIndex(entries).0, urls);
    var ps := parse(entries[i].1).value;
    LruCache.GetAfterPut(cache, entries[i].0, ps);
  }
}

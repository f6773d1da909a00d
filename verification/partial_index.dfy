/**
 * Building one partial index from a batch of documents
 * (`create_partial_index`, `create_and_save_partial_index`): every
 * document's URL gets its id, and every `(token, tf)` pair of the document
 * appends the posting `(url id, tf)` under the token. Writing the partial
 * index (`write_partial_index`) emits the tokens in ascending order.
 */
module PartialIndex {
  import opened Seqs
  import opened StringOrder
  import opened IdAllocator
  import opened Posting
  import opened JsonValue

  /** One document of a batch: its URL and its token frequencies. */
  type Doc = (string, seq<(string, real)>)

  /**
   * The `defaultdict(list)` under construction: its keys in insertion order
   * and the postings list of each key.
   */
  datatype Index = Index(order: seq<string>, postings: map<string, seq<Posting>>)

  /** Keys listed once each, and no key with an empty postings list. */
  predicate Valid(pi: Index) {
    && NoDup(pi.order)
    && Elems(pi.order) == pi.postings.Keys
    && forall t :: t in pi.postings ==> |pi.postings[t]| > 0
  }

  /** The postings of `t`, `[]` for a token that is not a key. */
  function Lookup(pi: Index, t: string): seq<Posting> {
    if t in pi.postings then pi.postings[t] else []
  }

  /** `partial_index[token].append(posting)`. */
  function Append(pi: Index, token: string, p: Posting): (r: Index)
    requires Valid(pi)
    ensures Valid(r)
    ensures Lookup(r, token) == Lookup(pi, token) + [p]
    ensures forall t :: t != token ==> Lookup(r, t) == Lookup(pi, t)
  {
    if token in pi.postings then Index(pi.order, pi.postings[token := pi.postings[token] + [p]])
    else
      assert Elems(pi.order + [token]) == Elems(pi.order) + {token};
      Index(pi.order + [token], pi.postings[token := [p]])
  }

  /** The inner loop: one posting per `(token, tf)` pair of a document. */
  function AddDoc(pi: Index, id: nat, tokens: seq<(string, real)>): (r: Index)
    requires Valid(pi)
    ensures Valid(r)
  {
    if |tokens| == 0 then pi
    else
      var (t, tf) := tokens[|tokens| - 1];
      Append(AddDoc(pi, id, tokens[..|tokens| - 1]), t, Make(Int(id), Num(tf)))
  }

  /** The postings one document contributes to `t`, in its token order. */
  function DocPostings(id: nat, tokens: seq<(string, real)>, t: string): seq<Posting> {
    if |tokens| == 0 then []
    else
      var (t', tf) := tokens[|tokens| - 1];
      DocPostings(id, tokens[..|tokens| - 1], t) + (if t' == t then [Make(Int(id), Num(tf))] else [])
  }

  /** The posting-list contents `create_partial_index` is meant to produce for `t`. */
  function Occurrences(batch: seq<Doc>, ids: map<string, nat>, t: string): seq<Posting>
    requires forall i :: 0 <= i < |batch| ==> batch[i].0 in ids
  {
    if |batch| == 0 then []
    else
      var d := batch[|batch| - 1];
      Occurrences(batch[..|batch| - 1], ids, t) + DocPostings(ids[d.0], d.1, t)
  }

  lemma {:induction false} AddDocLookup(pi: Index, id: nat, tokens: seq<(string, real)>, t: string)
    requires Valid(pi)
    ensures Lookup(AddDoc(pi, id, tokens), t) == Lookup(pi, t) + DocPostings(id, tokens, t)
    decreases |tokens|
  {
    if |tokens| > 0 {
      AddDocLookup(pi, id, tokens[..|tokens| - 1], t);
    }
  }

  /**
   * `create_partial_index`: the grown URL allocator and the partial index of
   * the batch, one document after another.
   */
  function Create(a: Allocator, batch: seq<Doc>): (r: (Allocator, Index))
    ensures Valid(r.1)
    ensures forall u :: u in a.ids ==> u in r.0.ids && r.0.ids[u] == a.ids[u]
    ensures forall i :: 0 <= i < |batch| ==> batch[i].0 in r.0.ids
  {
    if |batch| == 0 then (a, Index([], map[]))
    else
      var init := batch[..|batch| - 1];
      var (a1, pi) := Create(a, init);
      var (id, a2) := GetId(a1, batch[|batch| - 1].0);
      assert forall i :: 0 <= i < |init| ==> batch[i] == init[i];
      (a2, AddDoc(pi, id, batch[|batch| - 1].1))
  }

  /** Ids that agree on the batch's URLs give the same occurrences. */
  lemma {:induction false} OccurrencesStable(batch: seq<Doc>, ids: map<string, nat>, ids': map<string, nat>, t: string)
    requires forall i :: 0 <= i < |batch| ==> batch[i].0 in ids && batch[i].0 in ids' && ids[batch[i].0] == ids'[batch[i].0]
    ensures Occurrences(batch, ids, t) == Occurrences(batch, ids', t)
    decreases |batch|
  {
    if |batch| > 0 {
      var init := batch[..|batch| - 1];
      assert forall i :: 0 <= i < |init| ==> init[i] == batch[i];
      OccurrencesStable(init, ids, ids', t);
    }
  }

  /**
   * Under every token the partial index holds exactly one posting
   * `(id of url, tf)` for each document of the batch that has the token,
   * in batch order, and nothing else: a token is a key exactly when some
   * document has it.
   */
  lemma {:induction false} CreateOccurrences(a: Allocator, batch: seq<Doc>, t: string)
    ensures Lookup(Create(a, batch).1, t) == Occurrences(batch, Create(a, batch).0.ids, t)
    ensures t in Create(a, batch).1.postings <==> |Occurrences(batch, Create(a, batch).0.ids, t)| > 0
    decreases |batch|
  {
    if |batch| > 0 {
      var init := batch[..|batch| - 1];
      var d := batch[|batch| - 1];
      var (a1, pi) := Create(a, init);
      var (id, a2) := GetId(a1, d.0);
      CreateOccurrences(a, init, t);
      AddDocLookup(pi, id, d.1, t);
      assert forall i :: 0 <= i < |init| ==> init[i] == batch[i];
      OccurrencesStable(init, a1.ids, a2.ids, t);
    }
  }

  /**
   * The root indexer's `save_partial_index` file: one `(token, postings)`
   * record per token, tokens in ascending order.
   */
  function Write(pi: Index): (records: seq<(string, seq<Posting>)>)
    requires Valid(pi)
    ensures StrictlyAscending(Firsts(records))
    ensures Elems(Firsts(records)) == pi.postings.Keys
    ensures forall i :: 0 <= i < |records| ==> records[i].0 in pi.postings && records[i].1 == pi.postings[records[i].0]
  {
    var keys := Sorted(pi.order);
    assert forall t :: t in keys <==> t in multiset(keys);
    assert forall t :: t in pi.order <==> t in multiset(pi.order);
    var records := seq(|keys|, i requires 0 <= i < |keys| => (keys[i], pi.postings[keys[i]]));
    assert Firsts(records) == keys;
    records
  }

  /**
   * The binary indexer's partial file: the same records, each token's
   * position being where its record starts (its record number here).
   */
  function WriteWithPositions(pi: Index): (r: (seq<(string, seq<Posting>)>, map<string, nat>))
    requires Valid(pi)
    ensures r.0 == Write(pi)
    ensures r.1.Keys == pi.postings.Keys
    ensures forall t :: t in r.1 ==> r.1[t] < |r.0| && r.0[r.1[t]].0 == t
  {
    var records := Write(pi);
    AscendingNoDup(Firsts(records));
    (records, Positions(records))
  }

  /** A document of the binary indexer's batch: its URL and file path, and its token frequencies. */
  type FileDoc = ((string, string), seq<(string, real)>)

  function UrlDocs(batch: seq<FileDoc>): (r: seq<Doc>)
    ensures |r| == |batch| && forall i :: 0 <= i < |batch| ==> r[i] == (batch[i].0.0, batch[i].1)
  {
    seq(|batch|, i requires 0 <= i < |batch| => (batch[i].0.0, batch[i].1))
  }

  function Paths(batch: seq<FileDoc>): (r: seq<string>)
    ensures |r| == |batch| && forall i :: 0 <= i < |batch| ==> r[i] == batch[i].0.1
  {
    seq(|batch|, i requires 0 <= i < |batch| => batch[i].0.1)
  }

  /**
   * `create_and_save_partial_index`'s grouping: the file of every document
   * gets an id too, but the postings carry only the URL id, so the index is
   * the one built from the URLs alone and the file ids are allocated on the
   * side.
   */
  function CreateWithFiles(reg: Registry, batch: seq<FileDoc>): (r: (Registry, Index))
    ensures r.1 == Create(reg.urls, UrlDocs(batch)).1
    ensures r.0.urls == Create(reg.urls, UrlDocs(batch)).0
    ensures r.0.files == GetIds(reg.files, Paths(batch))
  {
    if |batch| == 0 then (reg, Index([], map[]))
    else
      var init := batch[..|batch| - 1];
      var (reg1, pi) := CreateWithFiles(reg, init);
      var ((url, path), tokens) := batch[|batch| - 1];
      var (id, reg2) := GetUrlId(reg1, url);
      var (_, reg3) := GetFileId(reg2, path);
      assert UrlDocs(batch)[..|batch| - 1] == UrlDocs(init);
      assert Paths(batch) == Paths(init) + [path];
      GetIdsSnoc(reg.files, Paths(init), path);
      (reg3, AddDoc(pi, id, tokens))
  }
}

/**
 * Dense numeric ids handed out in first-seen order (`get_url_id`,
 * `get_file_id`) and the saved id-to-name mapping (`save_url_mapping`,
 * `save_file_mapping`), whose JSON keys are the ids' decimal texts.
 */
module IdAllocator {
  import opened Seqs
  import opened Decimal

  /** The name-to-id map and the next id to hand out. */
  datatype Allocator = Allocator(ids: map<string, nat>, next: nat)

  function Empty(): Allocator {
    Allocator(map[], 0)
  }

  /**
   * `a` numbers the names of `order` by their positions in it: the
   * allocator's state after seeing exactly those names, first to last.
   */
  predicate Numbers(a: Allocator, order: seq<string>) {
    && NoDup(order)
    && a.next == |order|
    && a.ids.Keys == Elems(order)
    && forall i :: 0 <= i < |order| ==> a.ids[order[i]] == i
  }

  /** `get_url_id` / `get_file_id`: the name's id, allocating the next one for a new name. */
  function GetId(a: Allocator, name: string): (r: (nat, Allocator))
    ensures name in r.1.ids && r.1.ids[name] == r.0
    ensures name in a.ids ==> r.1 == a
    ensures name !in a.ids ==> r.0 == a.next && r.1.next == a.next + 1
    ensures forall other :: other in a.ids ==> other in r.1.ids && r.1.ids[other] == a.ids[other]
  {
    if name in a.ids then (a.ids[name], a)
    else (a.next, Allocator(a.ids[name := a.next], a.next + 1))
  }

  /** Asking for the ids of `names` one after another. */
  function GetIds(a: Allocator, names: seq<string>): Allocator
    decreases |names|
  {
    if |names| == 0 then a
    else GetIds(GetId(a, names[0]).1, names[1..])
  }

  /** Asking for one more name extends the numbered order by that name, if it is new. */
  lemma GetIdNumbers(a: Allocator, order: seq<string>, name: string)
    requires Numbers(a, order)
    ensures Numbers(GetId(a, name).1, if name in order then order else order + [name])
  {
    if name !in order {
      var order' := order + [name];
      assert Elems(order') == Elems(order) + {name};
      assert forall i :: 0 <= i < |order| ==> order'[i] == order[i] && order[i] != name;
    }
  }

  /**
   * From the empty allocator, a sequence of requests numbers the names 0, 1,
   * 2, … in the order they are first seen.
   */
  lemma {:induction false} GetIdsFirstSeen(names: seq<string>)
    ensures Numbers(GetIds(Empty(), names), FirstSeen(names))
    decreases |names|
  {
    if |names| > 0 {
      var init := names[..|names| - 1];
      var last := names[|names| - 1];
      assert names == init + [last];
      GetIdsFirstSeen(init);
      GetIdsSnoc(Empty(), init, last);
      GetIdNumbers(GetIds(Empty(), init), FirstSeen(init), last);
    }
  }

  /** Requests compose: one more name at the end is one more `GetId`. */
  lemma {:induction false} GetIdsSnoc(a: Allocator, names: seq<string>, name: string)
    ensures GetIds(a, names + [name]) == GetId(GetIds(a, names), name).1
    decreases |names|
  {
    if |names| == 0 {
      assert GetIds(GetId(a, name).1, []) == GetId(a, name).1;
    } else {
      assert (names + [name])[1..] == names[1..] + [name];
      GetIdsSnoc(GetId(a, names[0]).1, names[1..], name);
    }
  }

  /**
   * Ids of a numbering are dense and distinct: names get the same id only if
   * they are the same name, and every id below the counter belongs to a name.
   */
  lemma NumbersDense(a: Allocator, order: seq<string>)
    requires Numbers(a, order)
    ensures forall u, v :: u in a.ids && v in a.ids && a.ids[u] == a.ids[v] ==> u == v
    ensures forall u :: u in a.ids ==> a.ids[u] < a.next
    ensures forall n :: 0 <= n < a.next ==> order[n] in a.ids && a.ids[order[n]] == n
  {
    forall u | u in a.ids
      ensures a.ids[u] < a.next && order[a.ids[u]] == u
    {
      assert u in Elems(order);
      var i :| 0 <= i < |order| && order[i] == u;
    }
  }

  /**
   * `m` inverts the allocator's map: each name is found under the decimal
   * text of its id, and each key is such a text, holding the name with that id.
   */
  predicate Inverts(a: Allocator, m: map<string, string>) {
    && (forall u :: u in a.ids ==> NatToString(a.ids[u]) in m && m[NatToString(a.ids[u])] == u)
    && (forall k :: k in m ==> ParseNat(k).Some? && m[k] in a.ids && a.ids[m[k]] == ParseNat(k).value)
    && (forall k :: k in m ==> k == NatToString(ParseNat(k).value))
  }

  /**
   * `save_url_mapping`: the inverse map with each id written as its decimal
   * text. Distinct names have distinct ids, so every key has one name.
   */
  function SaveMapping(a: Allocator, ghost order: seq<string>): (m: map<string, string>)
    requires Numbers(a, order)
    ensures Inverts(a, m)
  {
    NumbersDense(a, order);
    KeysDistinct(a);
    var m := map u | u in a.ids :: NatToString(a.ids[u]) := u;
    forall k | k in m
      ensures ParseNat(k).Some? && m[k] in a.ids && a.ids[m[k]] == ParseNat(k).value
      ensures k == NatToString(ParseNat(k).value)
    {
      var u :| u in a.ids && NatToString(a.ids[u]) == k;
      ParseNatToString(a.ids[u]);
    }
    m
  }

  /** Names with distinct ids get distinct keys. */
  lemma KeysDistinct(a: Allocator)
    requires forall u, v :: u in a.ids && v in a.ids && a.ids[u] == a.ids[v] ==> u == v
    ensures forall u, v :: u in a.ids && v in a.ids && NatToString(a.ids[u]) == NatToString(a.ids[v]) ==> u == v
  {
    forall u, v | u in a.ids && v in a.ids && NatToString(a.ids[u]) == NatToString(a.ids[v])
      ensures u == v
    {
      NatToStringInjective(a.ids[u], a.ids[v]);
    }
  }

  /** The indexer's two independent allocators: URLs and partial-index files. */
  datatype Registry = Registry(urls: Allocator, files: Allocator)

  /** `get_url_id`: only the URL counter moves. */
  function GetUrlId(r: Registry, url: string): (res: (nat, Registry))
    ensures res.1.files == r.files
    ensures (res.0, res.1.urls) == GetId(r.urls, url)
  {
    var (id, urls) := GetId(r.urls, url);
    (id, r.(urls := urls))
  }

  /** `get_file_id`: only the file counter moves. */
  function GetFileId(r: Registry, path: string): (res: (nat, Registry))
    ensures res.1.urls == r.urls
    ensures (res.0, res.1.files) == GetId(r.files, path)
  {
    var (id, files) := GetId(r.files, path);
    (id, r.(files := files))
  }
}

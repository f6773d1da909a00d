/**
 * Boolean AND retrieval over the postings of the query terms, in the two
 * variants the query side has. Both order the terms by document frequency
 * and intersect their document-id sets starting from the least frequent
 * one, stopping early once the intersection is empty. The strict variant
 * (`Search.boolean_and_search`) answers nothing when some term has no
 * postings; the lenient one (`QueryProcessor.boolean_and_search`) drops
 * such terms instead.
 *
 * The postings the reader returns are given as a map from term to the
 * document ids of its postings; a term that is not a key has none.
 */
module BooleanSearch {
  import opened Seqs

  type Index = map<string, seq<int>>

  /** The document ids of `t`'s postings, in posting order. */
  function Postings(ix: Index, t: string): seq<int> {
    if t in ix then ix[t] else []
  }

  /** `get_document_frequency`: the number of postings. */
  function Freq(ix: Index, t: string): nat {
    |Postings(ix, t)|
  }

  /** `set(posting['doc_id'] for posting in postings)`. */
  function Docs(ix: Index, t: string): set<int> {
    Elems(Postings(ix, t))
  }

  /** `d` occurs in the postings of every term of `terms`. */
  predicate InAll(ix: Index, terms: seq<string>, d: int) {
    forall i :: 0 <= i < |terms| ==> d in Docs(ix, terms[i])
  }

  /** The reference: the documents that every term of a non-empty term list occurs in. */
  function Intersection(ix: Index, terms: seq<string>): (r: set<int>)
    requires |terms| > 0
    ensures forall d :: d in r <==> InAll(ix, terms, d)
  {
    set d | d in Docs(ix, terms[0]) && InAll(ix, terms, d)
  }

  /** Term lists with the same terms, in whatever order and multiplicity, match the same documents. */
  lemma IntersectionSameTerms(ix: Index, a: seq<string>, b: seq<string>)
    requires |a| > 0 && |b| > 0 && Elems(a) == Elems(b)
    ensures Intersection(ix, a) == Intersection(ix, b)
  {
    forall d | InAll(ix, a, d)
      ensures InAll(ix, b, d)
    {
      forall j | 0 <= j < |b|
        ensures d in Docs(ix, b[j])
      {
        assert b[j] in Elems(a);
        var i :| 0 <= i < |a| && a[i] == b[j];
      }
    }
    forall d | InAll(ix, b, d)
      ensures InAll(ix, a, d)
    {
      forall i | 0 <= i < |a|
        ensures d in Docs(ix, a[i])
      {
        assert a[i] in Elems(b);
        var j :| 0 <= j < |b| && b[j] == a[i];
      }
    }
  }

  /** A term without postings empties the intersection. */
  lemma MissingTermEmpties(ix: Index, terms: seq<string>, i: nat)
    requires i < |terms| && Freq(ix, terms[i]) == 0
    ensures Intersection(ix, terms) == {}
  {
    assert Docs(ix, terms[i]) == {};
  }

  /** Frequencies never decrease along `s`. */
  predicate AscendingFreq(s: seq<(string, nat)>) {
    forall i, j :: 0 <= i < j < |s| ==> s[i].1 <= s[j].1
  }

  /** Inserts `x` after every entry of no greater frequency. */
  function InsertByFreq(x: (string, nat), s: seq<(string, nat)>): (r: seq<(string, nat)>)
    requires AscendingFreq(s)
    ensures AscendingFreq(r)
    ensures multiset(r) == multiset(s) + multiset{x}
    ensures |r| == |s| + 1 && (|s| == 0 || r[0] == x || r[0] == s[0])
  {
    if |s| == 0 then [x]
    else if x.1 < s[0].1 then [x] + s
    else
      var rest := InsertByFreq(x, s[1..]);
      assert s == [s[0]] + s[1..];
      assert s[0].1 <= rest[0].1;
      assert forall j :: 0 < j < |rest| ==> rest[0].1 <= rest[j].1;
      [s[0]] + rest
  }

  /** `list.sort(key=lambda x: x[1])`: a stable sort by frequency. */
  function SortByFreq(s: seq<(string, nat)>): (r: seq<(string, nat)>)
    ensures AscendingFreq(r)
    ensures multiset(r) == multiset(s)
  {
    if |s| == 0 then []
    else
      assert s == s[..|s| - 1] + [s[|s| - 1]];
      InsertByFreq(s[|s| - 1], SortByFreq(s[..|s| - 1]))
  }

  /** Entries with the same multiset have the same first components. */
  lemma SameFirsts(a: seq<(string, nat)>, b: seq<(string, nat)>)
    requires multiset(a) == multiset(b)
    ensures Elems(Firsts(a)) == Elems(Firsts(b))
  {
    forall t | t in Elems(Firsts(a))
      ensures t in Elems(Firsts(b))
    {
      var i :| 0 <= i < |a| && Firsts(a)[i] == t;
      assert a[i] in multiset(b);
      var j :| 0 <= j < |b| && b[j] == a[i];
      assert Firsts(b)[j] == t;
    }
    forall t | t in Elems(Firsts(b))
      ensures t in Elems(Firsts(a))
    {
      var j :| 0 <= j < |b| && Firsts(b)[j] == t;
      assert b[j] in multiset(a);
      var i :| 0 <= i < |a| && a[i] == b[j];
      assert Firsts(a)[i] == t;
    }
  }

  /** Each term paired with its document frequency, in query order. */
  function WithFreqs(ix: Index, terms: seq<string>): (r: seq<(string, nat)>)
    ensures |r| == |terms| && Firsts(r) == terms
    ensures forall i :: 0 <= i < |r| ==> r[i].1 == Freq(ix, terms[i])
  {
    var r := seq(|terms|, i requires 0 <= i < |terms| => (terms[i], Freq(ix, terms[i])));
    assert Firsts(r) == terms;
    r
  }

  /** One more term narrows the intersection of a prefix by that term's documents. */
  lemma IntersectionSnoc(ix: Index, ts: seq<string>, i: nat)
    requires 0 < i < |ts|
    ensures Intersection(ix, ts[..i + 1]) == Intersection(ix, ts[..i]) * Docs(ix, ts[i])
  {
    assert forall d :: InAll(ix, ts[..i + 1], d) <==> InAll(ix, ts[..i], d) && d in Docs(ix, ts[i]) by {
      forall d
        ensures InAll(ix, ts[..i + 1], d) <==> InAll(ix, ts[..i], d) && d in Docs(ix, ts[i])
      {
        assert ts[..i + 1][i] == ts[i];
        assert forall k :: 0 <= k < i ==> ts[..i + 1][k] == ts[..i][k];
      }
    }
  }

  /** The intersection over all terms lies within the intersection over any prefix. */
  lemma IntersectionPrefix(ix: Index, ts: seq<string>, i: nat)
    requires 0 < i <= |ts|
    ensures Intersection(ix, ts) <= Intersection(ix, ts[..i])
  {
    forall d | InAll(ix, ts, d)
      ensures InAll(ix, ts[..i], d)
    {
      assert forall k :: 0 <= k < i ==> ts[..i][k] == ts[k];
    }
  }

  /**
   * The intersection loop: start from the first term's documents, narrow by
   * each later term, and stop as soon as nothing is left.
   */
  method IntersectInOrder(ix: Index, ts: seq<string>) returns (result: set<int>)
    requires |ts| > 0
    ensures result == Intersection(ix, ts)
  {
    result := Docs(ix, ts[0]);
    assert result == Intersection(ix, ts[..1]) by {
      assert forall d :: InAll(ix, ts[..1], d) <==> d in Docs(ix, ts[0]) by {
        assert ts[..1][0] == ts[0];
      }
    }
    var i := 1;
    while i < |ts|
      invariant 1 <= i <= |ts|
      invariant result == Intersection(ix, ts[..i])
    {
      IntersectionSnoc(ix, ts, i);
      result := result * Docs(ix, ts[i]);
      i := i + 1;
      if result == {} {
        IntersectionPrefix(ix, ts, i);
        return;
      }
    }
    assert ts[..i] == ts;
  }

  /** What the strict search answers: nothing for no terms, else the intersection of all terms. */
  function StrictResult(ix: Index, terms: seq<string>): set<int> {
    if |terms| == 0 then {} else Intersection(ix, terms)
  }

  /**
   * `Search.boolean_and_search`: empty for no terms or when some term has
   * no postings; otherwise the frequency-ordered intersection.
   */
  method StrictAnd(ix: Index, terms: seq<string>) returns (result: set<int>)
    ensures |terms| == 0 ==> result == {}
    ensures forall i :: 0 <= i < |terms| && Freq(ix, terms[i]) == 0 ==> result == {}
    ensures result == StrictResult(ix, terms)
  {
    if |terms| == 0 {
      return {};
    }
    var freqs := WithFreqs(ix, terms);
    var sorted := SortByFreq(freqs);
    SameFirsts(sorted, freqs);
    if exists k :: 0 <= k < |sorted| && sorted[k].1 == 0 {
      var k :| 0 <= k < |sorted| && sorted[k].1 == 0;
      assert sorted[k] in multiset(freqs);
      var i :| 0 <= i < |freqs| && freqs[i] == sorted[k];
      MissingTermEmpties(ix, terms, i);
      return {};
    }
    result := IntersectInOrder(ix, Firsts(sorted));
    IntersectionSameTerms(ix, Firsts(sorted), terms);
    forall i | 0 <= i < |terms| && Freq(ix, terms[i]) == 0
      ensures result == {}
    {
      MissingTermEmpties(ix, terms, i);
    }
  }

  /** Keeps the terms that have postings, in order. */
  function WithPostings(ix: Index, ts: seq<string>): (r: seq<string>)
    ensures forall i :: 0 <= i < |r| ==> Freq(ix, r[i]) > 0
    ensures Elems(r) == set t | t in ts && Freq(ix, t) > 0
    ensures NoDup(ts) ==> NoDup(r)
  {
    if |ts| == 0 then []
    else
      var rest := WithPostings(ix, ts[1..]);
      assert Elems(ts) == {ts[0]} + Elems(ts[1..]);
      if Freq(ix, ts[0]) > 0 then
        assert Elems([ts[0]] + rest) == {ts[0]} + Elems(rest);
        [ts[0]] + rest
      else rest
  }

  /**
   * The lenient search's valid terms: the distinct query terms (the keys of
   * the frequency dictionary, in first-seen order) that have postings.
   */
  function ValidTerms(ix: Index, terms: seq<string>): (r: seq<string>)
    ensures NoDup(r)
    ensures forall t :: t in r <==> t in terms && Freq(ix, t) > 0
  {
    var distinct := FirstSeen(terms);
    var r := WithPostings(ix, distinct);
    forall t
      ensures t in r <==> t in terms && Freq(ix, t) > 0
    {
      assert t in r <==> t in Elems(r);
      assert t in distinct <==> t in Elems(distinct);
      assert t in terms <==> t in Elems(terms);
    }
    r
  }

  /** What the lenient search answers: the intersection over the valid terms, nothing without any. */
  function LenientResult(ix: Index, terms: seq<string>): set<int> {
    var valid := ValidTerms(ix, terms);
    if |valid| == 0 then {} else Intersection(ix, valid)
  }

  /**
   * `QueryProcessor.boolean_and_search`: terms without postings are
   * dropped; the rest are intersected in frequency order.
   */
  method LenientAnd(ix: Index, terms: seq<string>) returns (result: set<int>)
    ensures |terms| == 0 ==> result == {}
    ensures (forall i :: 0 <= i < |terms| ==> Freq(ix, terms[i]) == 0) ==> result == {}
    ensures forall t :: t in terms && Freq(ix, t) > 0 ==> result <= Docs(ix, t)
    ensures result == LenientResult(ix, terms)
  {
    if |terms| == 0 {
      return {};
    }
    var valid := ValidTerms(ix, terms);
    if |valid| == 0 {
      return {};
    }
    var freqs := WithFreqs(ix, valid);
    var sorted := SortByFreq(freqs);
    SameFirsts(sorted, freqs);
    result := IntersectInOrder(ix, Firsts(sorted));
    IntersectionSameTerms(ix, Firsts(sorted), valid);
    forall t | t in terms && Freq(ix, t) > 0
      ensures result <= Docs(ix, t)
    {
      var i :| 0 <= i < |valid| && valid[i] == t;
    }
  }

  /** On terms that all have postings the two variants agree. */
  lemma VariantsAgree(ix: Index, terms: seq<string>)
    requires forall i :: 0 <= i < |terms| ==> Freq(ix, terms[i]) > 0
    ensures StrictResult(ix, terms) == LenientResult(ix, terms)
  {
    var valid := ValidTerms(ix, terms);
    if |terms| > 0 {
      assert terms[0] in valid;
      assert Elems(valid) == Elems(terms);
      IntersectionSameTerms(ix, terms, valid);
    }
  }

  /**
   * A query with one term absent from the index: the strict answer is empty,
   * the lenient one is every document of the other term.
   */
  lemma MissingTermDiffers(ix: Index, a: string, b: string)
    requires Freq(ix, a) > 0 && Freq(ix, b) == 0
    ensures StrictResult(ix, [a, b]) == {}
    ensures LenientResult(ix, [a, b]) == Docs(ix, a)
    ensures LenientResult(ix, [a, b]) != {}
  {
    var terms := [a, b];
    MissingTermEmpties(ix, terms, 1);
    var valid := ValidTerms(ix, terms);
    assert Elems(valid) == Elems([a]) by {
      assert a in valid;
      assert forall t :: t in valid ==> t == a;
    }
    IntersectionSameTerms(ix, valid, [a]);
    assert Postings(ix, a)[0] in Docs(ix, a);
  }
}

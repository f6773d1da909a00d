/**
 * The k-way merge of sorted partial indexes (`merge_partial_indexes`). Each
 * partial file is a list of `(token, postings)` records in ascending token
 * order. The heap holds the next record of every open file, keyed by
 * `(token, counter)` where the counter is the order in which records were
 * pushed, so the heap never compares postings. Popping a record either
 * starts a new current token, flushing the previous one, or extends the
 * current token's postings; the file it came from then pushes its next
 * record, or is closed when it has none.
 *
 * The heap is modelled as what it provides: the remaining records of every
 * file, whose heads are the heap's items, each with the counter it was
 * pushed with, and a pop that returns the head with the least key.
 */
module KWayMerge {
  import opened Wrappers
  import opened Seqs
  import opened StringOrder

  type Record<P> = (string, seq<P>)

  /** A partial file: its tokens strictly ascending. */
  predicate SortedFile<P>(file: seq<Record<P>>) {
    StrictlyAscending(Firsts(file))
  }

  /** All postings filed under `t` in some records. */
  function Bag<P>(records: seq<Record<P>>, t: string): multiset<P>
    decreases |records|
  {
    if |records| == 0 then multiset{}
    else (if records[0].0 == t then multiset(records[0].1) else multiset{}) + Bag(records[1..], t)
  }

  /** All postings filed under `t` in any of the files. */
  function BagAll<P>(files: seq<seq<Record<P>>>, t: string): multiset<P>
    decreases |files|
  {
    if |files| == 0 then multiset{} else Bag(files[0], t) + BagAll(files[1..], t)
  }

  /** Every token of any of the files. */
  function TokenSet<P>(files: seq<seq<Record<P>>>): set<string> {
    set f, k | 0 <= f < |files| && 0 <= k < |files[f]| :: files[f][k].0
  }

  /** The number of records left in the files. */
  function Total<P>(files: seq<seq<Record<P>>>): nat
    decreases |files|
  {
    if |files| == 0 then 0 else |files[0]| + Total(files[1..])
  }

  /** The heap key of a file's head: its token and the counter it was pushed with. */
  function Key<P>(rem: seq<seq<Record<P>>>, stamps: seq<nat>, f: nat): (string, nat)
    requires f < |rem| == |stamps| && |rem[f]| > 0
  {
    (rem[f][0].0, stamps[f])
  }

  /** The tuple order of the heap: by token, then by counter. */
  predicate KeyLess(a: (string, nat), b: (string, nat)) {
    Less(a.0, b.0) || (a.0 == b.0 && a.1 < b.1)
  }

  /** "Not less than" chains along keys. */
  lemma KeyNotLessTrans(a: (string, nat), b: (string, nat), c: (string, nat))
    requires !KeyLess(b, a) && !KeyLess(c, b)
    ensures !KeyLess(c, a)
  {
    if a.0 != b.0 {
      LessTotal(a.0, b.0);
    }
    if b.0 != c.0 {
      LessTotal(b.0, c.0);
    }
    if Less(c.0, a.0) {
      if a.0 == b.0 {
      } else if b.0 == c.0 {
      } else {
        LessTransitive(a.0, b.0, c.0);
        LessAsymmetric(c.0, a.0);
      }
    }
  }

  lemma KeyLessAsymmetric(a: (string, nat), b: (string, nat))
    requires KeyLess(a, b)
    ensures !KeyLess(b, a)
  {
    if Less(a.0, b.0) {
      LessAsymmetric(a.0, b.0);
      LessIrreflexive(a.0);
    }
  }

  /**
   * `heappop`: among the files from `i` on, the one whose head has the least
   * key, or `None` when they are all exhausted.
   */
  function PopFrom<P>(rem: seq<seq<Record<P>>>, stamps: seq<nat>, i: nat): (r: Option<nat>)
    requires i <= |rem| == |stamps|
    ensures r.None? ==> forall g :: i <= g < |rem| ==> |rem[g]| == 0
    ensures r.Some? ==> i <= r.value < |rem| && |rem[r.value]| > 0
    ensures r.Some? ==> forall g :: i <= g < |rem| && |rem[g]| > 0 ==>
      !KeyLess(Key(rem, stamps, g), Key(rem, stamps, r.value))
    decreases |rem| - i
  {
    if i == |rem| then None
    else
      var b := PopFrom(rem, stamps, i + 1);
      if |rem[i]| == 0 then b
      else if b.None? then
        LessIrreflexive(rem[i][0].0);
        Some(i)
      else if KeyLess(Key(rem, stamps, b.value), Key(rem, stamps, i)) then
        KeyLessAsymmetric(Key(rem, stamps, b.value), Key(rem, stamps, i));
        b
      else
        assert forall g :: i < g < |rem| && |rem[g]| > 0 ==> !KeyLess(Key(rem, stamps, g), Key(rem, stamps, b.value));
        forall g | i < g < |rem| && |rem[g]| > 0
          ensures !KeyLess(Key(rem, stamps, g), Key(rem, stamps, i))
        {
          KeyNotLessTrans(Key(rem, stamps, i), Key(rem, stamps, b.value), Key(rem, stamps, g));
        }
        LessIrreflexive(rem[i][0].0);
        Some(i)
  }

  /** The merge in progress. */
  datatype State<P> = State(
    rem: seq<seq<Record<P>>>,
    stamps: seq<nat>,
    counter: nat,
    cur: Option<Record<P>>,
    out: seq<Record<P>>)

  function CurBag<P>(cur: Option<Record<P>>, t: string): multiset<P> {
    if cur.Some? && cur.value.0 == t then multiset(cur.value.1) else multiset{}
  }

  function CurTokens<P>(cur: Option<Record<P>>): set<string> {
    if cur.Some? then {cur.value.0} else {}
  }

  /** No remaining token is below `t`. */
  predicate AllAtLeast<P>(rem: seq<seq<Record<P>>>, t: string) {
    forall f, k :: 0 <= f < |rem| && 0 <= k < |rem[f]| ==> !Less(rem[f][k].0, t)
  }

  /**
   * The merge invariant: the remaining files are sorted; the flushed records
   * are ascending and below the current token, which no remaining token is
   * below; and every posting and token of the input is in exactly one of
   * the flushed records, the current record or the remaining files.
   */
  ghost predicate Inv<P>(files: seq<seq<Record<P>>>, s: State<P>) {
    && |s.rem| == |files| && |s.stamps| == |files|
    && (forall f :: 0 <= f < |s.rem| ==> SortedFile(s.rem[f]))
    && (s.cur.None? ==> s.out == [])
    && (s.cur.Some? ==> AllAtLeast(s.rem, s.cur.value.0))
    && SortedFile(s.out)
    && (s.cur.Some? ==> forall i :: 0 <= i < |s.out| ==> Less(s.out[i].0, s.cur.value.0))
    && (forall t :: Bag(s.out, t) + CurBag(s.cur, t) + BagAll(s.rem, t) == BagAll(files, t))
    && Elems(Firsts(s.out)) + CurTokens(s.cur) + TokenSet(s.rem) == TokenSet(files)
  }

  /** Counters handed to the first records: non-empty files numbered in file order. */
  function InitStamps<P>(files: seq<seq<Record<P>>>): (r: (seq<nat>, nat))
    ensures |r.0| == |files|
  {
    if |files| == 0 then ([], 0)
    else
      var (stamps, n) := InitStamps(files[..|files| - 1]);
      if |files[|files| - 1]| > 0 then (stamps + [n], n + 1) else (stamps + [0], n)
  }

  /** `_initialize_file_iterators` and `_initialize_heap`: every non-empty file's first record is pushed. */
  function Init<P>(files: seq<seq<Record<P>>>): State<P> {
    var (stamps, n) := InitStamps(files);
    State(files, stamps, n, None, [])
  }

  function Pop<P>(s: State<P>): Option<nat>
    requires |s.rem| == |s.stamps|
  {
    PopFrom(s.rem, s.stamps, 0)
  }

  /**
   * One turn of the merge loop: pop the least head, flush or extend the
   * current token, and push the popped file's next record if it has one.
   */
  function Step<P>(s: State<P>): State<P>
    requires |s.rem| == |s.stamps| && Pop(s).Some?
  {
    var f := Pop(s).value;
    var (tok, ps) := s.rem[f][0];
    var tail := s.rem[f][1..];
    var stamps := if |tail| > 0 then s.stamps[f := s.counter] else s.stamps;
    var counter := if |tail| > 0 then s.counter + 1 else s.counter;
    if s.cur.None? then State(s.rem[f := tail], stamps, counter, Some((tok, ps)), s.out)
    else if tok != s.cur.value.0 then State(s.rem[f := tail], stamps, counter, Some((tok, ps)), s.out + [s.cur.value])
    else State(s.rem[f := tail], stamps, counter, Some((tok, s.cur.value.1 + ps)), s.out)
  }

  /** After the loop: the last current token is flushed. */
  function Finish<P>(s: State<P>): seq<Record<P>> {
    if s.cur.Some? then s.out + [s.cur.value] else s.out
  }

  lemma {:induction false} BagAppend<P>(a: seq<Record<P>>, b: seq<Record<P>>, t: string)
    ensures Bag(a + b, t) == Bag(a, t) + Bag(b, t)
    decreases |a|
  {
    if |a| == 0 {
      assert a + b == b;
    } else {
      assert (a + b)[1..] == a[1..] + b;
      BagAppend(a[1..], b, t);
    }
  }

  lemma {:induction false} BagAllUpdate<P>(files: seq<seq<Record<P>>>, f: nat, x: seq<Record<P>>, t: string)
    requires f < |files|
    ensures BagAll(files[f := x], t) + Bag(files[f], t) == BagAll(files, t) + Bag(x, t)
    decreases |files|
  {
    var files' := files[f := x];
    if f > 0 {
      assert files'[1..] == files[1..][f - 1 := x];
      assert files'[0] == files[0] && files[1..][f - 1] == files[f];
      BagAllUpdate(files[1..], f - 1, x, t);
      var a, b, c, d, e := Bag(files[0], t), BagAll(files'[1..], t), Bag(files[f], t), BagAll(files[1..], t), Bag(x, t);
      assert b + c == d + e;
      assert BagAll(files', t) == a + b;
      assert BagAll(files, t) == a + d;
      assert forall o :: (a + b + c)[o] == a[o] + (b + c)[o] == a[o] + (d + e)[o] == (a + d + e)[o];
    } else {
      assert files'[1..] == files[1..];
    }
  }

  lemma {:induction false} TotalUpdate<P>(files: seq<seq<Record<P>>>, f: nat, x: seq<Record<P>>)
    requires f < |files|
    ensures Total(files[f := x]) + |files[f]| == Total(files) + |x|
    decreases |files|
  {
    if f > 0 {
      assert files[f := x][1..] == files[1..][f - 1 := x];
      TotalUpdate(files[1..], f - 1, x);
    } else {
      assert files[f := x][1..] == files[1..];
    }
  }

  /** Removing a file's head removes at most its token from the token set. */
  lemma TokenSetPop<P>(files: seq<seq<Record<P>>>, f: nat)
    requires f < |files| && |files[f]| > 0
    ensures TokenSet(files[f := files[f][1..]]) + {files[f][0].0} == TokenSet(files)
  {
    var files': seq<seq<Record<P>>> := files[f := files[f][1..]];
    forall x | x in TokenSet(files)
      ensures x in TokenSet(files') + {files[f][0].0}
    {
      var g, k :| 0 <= g < |files| && 0 <= k < |files[g]| && files[g][k].0 == x;
      if g == f && k > 0 {
        assert files'[g][k - 1].0 == x;
      } else if g != f {
        assert files'[g][k].0 == x;
      }
    }
    forall x | x in TokenSet(files')
      ensures x in TokenSet(files)
    {
      var g, k :| 0 <= g < |files'| && 0 <= k < |files'[g]| && files'[g][k].0 == x;
      if g == f {
        assert files[g][k + 1].0 == x;
      } else {
        assert files[g][k].0 == x;
      }
    }
  }

  /** The popped head is the least remaining token. */
  lemma PopIsLeast<P>(s: State<P>)
    requires |s.rem| == |s.stamps| && Pop(s).Some?
    requires forall f :: 0 <= f < |s.rem| ==> SortedFile(s.rem[f])
    ensures AllAtLeast(s.rem, s.rem[Pop(s).value][0].0)
  {
    var tok := s.rem[Pop(s).value][0].0;
    forall g, k | 0 <= g < |s.rem| && 0 <= k < |s.rem[g]|
      ensures !Less(s.rem[g][k].0, tok)
    {
      assert !Less(s.rem[g][0].0, tok);
      if k > 0 {
        assert Firsts(s.rem[g])[0] == s.rem[g][0].0 && Firsts(s.rem[g])[k] == s.rem[g][k].0;
        if Less(s.rem[g][k].0, tok) {
          LessTransitive(s.rem[g][0].0, s.rem[g][k].0, tok);
        }
      }
    }
  }

  /** Dropping a head keeps a file sorted. */
  lemma TailSorted<P>(file: seq<Record<P>>)
    requires SortedFile(file) && |file| > 0
    ensures SortedFile(file[1..])
  {
    assert forall i :: 0 <= i < |file| - 1 ==> Firsts(file[1..])[i] == Firsts(file)[i + 1];
  }

  /** Appending a record above every token keeps the output ascending. */
  lemma AppendSorted<P>(out: seq<Record<P>>, r: Record<P>)
    requires SortedFile(out)
    requires forall i :: 0 <= i < |out| ==> Less(out[i].0, r.0)
    ensures SortedFile(out + [r])
  {
    assert forall i :: 0 <= i < |out| ==> Firsts(out + [r])[i] == Firsts(out)[i];
  }

  /** The ordering half of the invariant survives a step. */
  lemma StepOrder<P>(files: seq<seq<Record<P>>>, s: State<P>)
    requires Inv(files, s) && Pop(s).Some?
    ensures var s' := Step(s);
      && |s'.rem| == |files| && |s'.stamps| == |files|
      && (forall f :: 0 <= f < |s'.rem| ==> SortedFile(s'.rem[f]))
      && s'.cur.Some?
      && AllAtLeast(s'.rem, s'.cur.value.0)
      && SortedFile(s'.out)
      && (forall i :: 0 <= i < |s'.out| ==> Less(s'.out[i].0, s'.cur.value.0))
  {
    var f := Pop(s).value;
    var tok := s.rem[f][0].0;
    var s' := Step(s);
    PopIsLeast(s);
    TailSorted(s.rem[f]);
    assert s'.rem == s.rem[f := s.rem[f][1..]];
    assert forall g, k :: 0 <= g < |s'.rem| && 0 <= k < |s'.rem[g]| ==>
      s'.rem[g][k] == if g == f then s.rem[g][k + 1] else s.rem[g][k];
    if s.cur.Some? && tok != s.cur.value.0 {
      var c := s.cur.value.0;
      assert !Less(tok, c);
      LessTotal(tok, c);
      forall i | 0 <= i < |s.out|
        ensures Less(s.out[i].0, tok)
      {
        LessTransitive(s.out[i].0, c, tok);
      }
      AppendSorted(s.out, s.cur.value);
      assert s'.out == s.out + [s.cur.value];
    }
  }

  /** What a step does to the remaining files, the current record and the output. */
  lemma StepShape<P>(s: State<P>)
    requires |s.rem| == |s.stamps| && Pop(s).Some?
    ensures var f := Pop(s).value; var head := s.rem[f][0];
      && Step(s).rem == s.rem[f := s.rem[f][1..]]
      && (s.cur.Some? && head.0 != s.cur.value.0 ==> Step(s).out == s.out + [s.cur.value] && Step(s).cur == Some(head))
      && (s.cur.None? ==> Step(s).out == s.out && Step(s).cur == Some(head))
      && (s.cur.Some? && head.0 == s.cur.value.0 ==> Step(s).out == s.out && Step(s).cur == Some((head.0, s.cur.value.1 + head.1)))
  {
  }

  /** Multiset union cancels. */
  lemma Cancel<P>(a: multiset<P>, b: multiset<P>, c: multiset<P>)
    requires a + c == b + c
    ensures a == b
  {
    assert forall o :: a[o] == (a + c)[o] - c[o] == (b + c)[o] - c[o] == b[o];
  }

  /** Taking a file's head out of the remaining files takes out exactly its postings. */
  lemma PopBag<P>(rem: seq<seq<Record<P>>>, f: nat, t: string)
    requires f < |rem| && |rem[f]| > 0
    ensures BagAll(rem[f := rem[f][1..]], t) + (if rem[f][0].0 == t then multiset(rem[f][0].1) else multiset{}) == BagAll(rem, t)
  {
    var tail := rem[f][1..];
    BagAllUpdate(rem, f, tail, t);
    var hb := if rem[f][0].0 == t then multiset(rem[f][0].1) else multiset{};
    assert Bag(rem[f], t) == hb + Bag(tail, t);
    var rest, rest', bt := BagAll(rem, t), BagAll(rem[f := tail], t), Bag(tail, t);
    assert (rest' + hb) + bt == rest + bt by {
      assert rest' + (hb + bt) == rest + bt;
      assert forall o :: ((rest' + hb) + bt)[o] == (rest' + (hb + bt))[o];
    }
    Cancel(rest' + hb, rest, bt);
  }

  /** Moving the head's postings into the current record, flushing or not, keeps the total. */
  lemma Rebalance<P>(out: multiset<P>, cur: multiset<P>, rest: multiset<P>,
                     out': multiset<P>, cur': multiset<P>, rest': multiset<P>, hb: multiset<P>)
    requires rest' + hb == rest
    requires (out' == out + cur && cur' == hb) || (out' == out && cur' == cur + hb)
    ensures out' + cur' + rest' == out + cur + rest
  {
    assert forall o :: (out' + cur' + rest')[o] == (out + cur + rest)[o];
  }

  /** The postings half of the invariant survives a step. */
  lemma StepBags<P>(files: seq<seq<Record<P>>>, s: State<P>, t: string)
    requires |s.rem| == |s.stamps| && Pop(s).Some?
    requires Bag(s.out, t) + CurBag(s.cur, t) + BagAll(s.rem, t) == BagAll(files, t)
    ensures Bag(Step(s).out, t) + CurBag(Step(s).cur, t) + BagAll(Step(s).rem, t) == BagAll(files, t)
  {
    var f := Pop(s).value;
    var head := s.rem[f][0];
    StepShape(s);
    var s' := Step(s);
    PopBag(s.rem, f, t);
    var hb := if head.0 == t then multiset(head.1) else multiset{};
    if s.cur.Some? && head.0 != s.cur.value.0 {
      BagAppend(s.out, [s.cur.value], t);
      assert Bag([s.cur.value], t) == CurBag(s.cur, t) + Bag([s.cur.value][1..], t);
    } else if s.cur.Some? {
      assert multiset(s.cur.value.1 + head.1) == multiset(s.cur.value.1) + multiset(head.1);
    }
    Rebalance(Bag(s.out, t), CurBag(s.cur, t), BagAll(s.rem, t), Bag(s'.out, t), CurBag(s'.cur, t), BagAll(s'.rem, t), hb);
  }

  /** The token half of the invariant survives a step, and one record fewer remains. */
  lemma StepTokens<P>(files: seq<seq<Record<P>>>, s: State<P>)
    requires |s.rem| == |s.stamps| && Pop(s).Some?
    requires Elems(Firsts(s.out)) + CurTokens(s.cur) + TokenSet(s.rem) == TokenSet(files)
    ensures Elems(Firsts(Step(s).out)) + CurTokens(Step(s).cur) + TokenSet(Step(s).rem) == TokenSet(files)
    ensures Total(Step(s).rem) < Total(s.rem)
  {
    var f := Pop(s).value;
    var head := s.rem[f][0];
    var tail := s.rem[f][1..];
    var s' := Step(s);
    assert s'.rem == s.rem[f := tail];
    TotalUpdate(s.rem, f, tail);
    TokenSetPop(s.rem, f);
    if s.cur.Some? && head.0 != s.cur.value.0 {
      assert Firsts(s'.out) == Firsts(s.out) + [s.cur.value.0];
      assert Elems(Firsts(s.out) + [s.cur.value.0]) == Elems(Firsts(s.out)) + {s.cur.value.0};
    }
  }

  /** `merge_partial_indexes` on already-loaded partial files: the merged records. */
  method Merge<P>(files: seq<seq<Record<P>>>) returns (merged: seq<Record<P>>)
    requires forall f :: 0 <= f < |files| ==> SortedFile(files[f])
    ensures SortedFile(merged)
    ensures Elems(Firsts(merged)) == TokenSet(files)
    ensures forall t :: Bag(merged, t) == BagAll(files, t)
  {
    var s := Init(files);
    while Pop(s).Some?
      invariant Inv(files, s)
      decreases Total(s.rem)
    {
      StepInv(files, s);
      s := Step(s);
    }
    AllExhausted(s.rem);
    FinishCorrect(files, s);
    merged := Finish(s);
  }

  /** One turn of the merge loop keeps the invariant. */
  lemma StepInv<P>(files: seq<seq<Record<P>>>, s: State<P>)
    requires Inv(files, s) && Pop(s).Some?
    ensures Inv(files, Step(s)) && Total(Step(s).rem) < Total(s.rem)
  {
    StepOrder(files, s);
    StepTokens(files, s);
    forall t
      ensures Bag(Step(s).out, t) + CurBag(Step(s).cur, t) + BagAll(Step(s).rem, t) == BagAll(files, t)
    {
      StepBags(files, s, t);
    }
  }

  /** Writing out the last record once every file is exhausted gives the whole merge. */
  lemma FinishCorrect<P>(files: seq<seq<Record<P>>>, s: State<P>)
    requires Inv(files, s)
    requires forall t :: BagAll(s.rem, t) == multiset{}
    requires TokenSet(s.rem) == {}
    ensures SortedFile(Finish(s))
    ensures Elems(Firsts(Finish(s))) == TokenSet(files)
    ensures forall t :: Bag(Finish(s), t) == BagAll(files, t)
  {
    if s.cur.Some? {
      var merged := Finish(s);
      AppendSorted(s.out, s.cur.value);
      forall t
        ensures Bag(merged, t) == BagAll(files, t)
      {
        BagAppend(s.out, [s.cur.value], t);
        assert Bag([s.cur.value], t) == CurBag(s.cur, t);
      }
      assert Firsts(merged) == Firsts(s.out) + [s.cur.value.0];
      assert Elems(Firsts(s.out) + [s.cur.value.0]) == Elems(Firsts(s.out)) + {s.cur.value.0};
    }
  }

  /**
   * The binary indexer's merge: the merged records as they are pickled one
   * after another, and for every token the number of the record that holds
   * it, which is where its offset is recorded.
   */
  method MergeWithPositions<P>(files: seq<seq<Record<P>>>) returns (merged: seq<Record<P>>, positions: map<string, nat>)
    requires forall f :: 0 <= f < |files| ==> SortedFile(files[f])
    ensures SortedFile(merged)
    ensures forall t :: Bag(merged, t) == BagAll(files, t)
    ensures positions.Keys == TokenSet(files)
    ensures forall t :: t in positions ==> positions[t] < |merged| && merged[positions[t]].0 == t
  {
    merged := Merge(files);
    AscendingNoDup(Firsts(merged));
    positions := Positions(merged);
  }

  /** Exhausted files hold no postings and no tokens. */
  lemma {:induction false} AllExhausted<P>(rem: seq<seq<Record<P>>>)
    requires forall g :: 0 <= g < |rem| ==> |rem[g]| == 0
    ensures forall t :: BagAll(rem, t) == multiset{}
    ensures TokenSet(rem) == {}
    decreases |rem|
  {
    if |rem| > 0 {
      AllExhausted(rem[1..]);
    }
  }
}

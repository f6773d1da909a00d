/**
 * Python's ordering of `str` values (code-point lexicographic order) and
 * `sorted` over a duplicate-free list of tokens, which the partial-index
 * writers use to emit tokens in ascending order.
 */
module StringOrder {
  import opened Seqs

  /** `a < b` on Python strings: a proper prefix, or smaller at the first difference. */
  predicate Less(a: string, b: string) {
    && |b| > 0
    && (|a| == 0 || a[0] < b[0] || (a[0] == b[0] && Less(a[1..], b[1..])))
  }

  lemma {:induction false} LessIrreflexive(a: string)
    ensures !Less(a, a)
    decreases |a|
  {
    if |a| > 0 {
      LessIrreflexive(a[1..]);
    }
  }

  lemma {:induction false} LessTransitive(a: string, b: string, c: string)
    requires Less(a, b) && Less(b, c)
    ensures Less(a, c)
    decreases |a|
  {
    if |a| > 0 && a[0] == b[0] && b[0] == c[0] {
      LessTransitive(a[1..], b[1..], c[1..]);
    }
  }

  /** Any two different strings are ordered one way or the other. */
  lemma {:induction false} LessTotal(a: string, b: string)
    requires a != b
    ensures Less(a, b) || Less(b, a)
    decreases |a|
  {
    if |a| > 0 && |b| > 0 && a[0] == b[0] {
      assert a == [a[0]] + a[1..] && b == [b[0]] + b[1..];
      LessTotal(a[1..], b[1..]);
    }
  }

  lemma LessAsymmetric(a: string, b: string)
    requires Less(a, b)
    ensures !Less(b, a)
  {
    if Less(b, a) {
      LessTransitive(a, b, a);
      LessIrreflexive(a);
    }
  }

  /** Every item is smaller than every later item. */
  predicate StrictlyAscending(s: seq<string>) {
    forall i, j :: 0 <= i < j < |s| ==> Less(s[i], s[j])
  }

  /** Strictly ascending tokens are distinct. */
  lemma AscendingNoDup(s: seq<string>)
    requires StrictlyAscending(s)
    ensures NoDup(s)
  {
    forall i, j | 0 <= i < j < |s|
      ensures s[i] != s[j]
    {
      LessIrreflexive(s[i]);
    }
  }

  /** Placing below every item of an ascending sequence keeps it ascending. */
  lemma PrependAscending(y: string, s: seq<string>)
    requires StrictlyAscending(s)
    requires forall k :: 0 <= k < |s| ==> Less(y, s[k])
    ensures StrictlyAscending([y] + s)
  {
    forall i, j | 0 <= i < j < |[y] + s|
      ensures Less(([y] + s)[i], ([y] + s)[j])
    {
      if i > 0 {
        assert ([y] + s)[i] == s[i - 1];
      }
    }
  }

  /** The head of an ascending sequence is below all of the sequence's tail. */
  lemma HeadBelow(x: string, s: seq<string>)
    requires StrictlyAscending(s) && |s| > 0 && Less(x, s[0])
    ensures forall k :: 0 <= k < |s| ==> Less(x, s[k])
  {
    forall k | 0 < k < |s|
      ensures Less(x, s[k])
    {
      LessTransitive(x, s[0], s[k]);
    }
  }

  /** Places `x` into an ascending sequence that does not hold it. */
  function Insert(x: string, s: seq<string>): (r: seq<string>)
    requires StrictlyAscending(s) && x !in s
    ensures StrictlyAscending(r)
    ensures multiset(r) == multiset(s) + multiset{x}
    decreases |s|
  {
    if |s| == 0 then [x]
    else if Less(x, s[0]) then
      HeadBelow(x, s);
      PrependAscending(x, s);
      [x] + s
    else
      var rest := Insert(x, s[1..]);
      BelowInsert(x, s, rest);
      PrependAscending(s[0], rest);
      assert s == [s[0]] + s[1..];
      [s[0]] + rest
  }

  /** The head of `s` stays below everything once `x` is inserted after it. */
  lemma BelowInsert(x: string, s: seq<string>, rest: seq<string>)
    requires StrictlyAscending(s) && |s| > 0 && x !in s && !Less(x, s[0])
    requires multiset(rest) == multiset(s[1..]) + multiset{x}
    ensures forall k :: 0 <= k < |rest| ==> Less(s[0], rest[k])
  {
    LessTotal(x, s[0]);
    forall k | 0 <= k < |rest|
      ensures Less(s[0], rest[k])
    {
      assert rest[k] in multiset(rest);
      if rest[k] != x {
        assert rest[k] in s[1..];
        var j :| 0 <= j < |s[1..]| && s[1..][j] == rest[k];
        assert s[j + 1] == rest[k];
      }
    }
  }

  /** Python's `sorted` on distinct tokens: insertion into an ascending prefix. */
  function Sorted(s: seq<string>): (r: seq<string>)
    requires NoDup(s)
    ensures StrictlyAscending(r)
    ensures multiset(r) == multiset(s)
  {
    if |s| == 0 then []
    else
      var init := s[..|s| - 1];
      assert forall i, j :: 0 <= i < j < |init| ==> init[i] == s[i] && init[j] == s[j];
      var sortedInit := Sorted(init);
      assert s[|s| - 1] !in multiset(init);
      assert s == init + [s[|s| - 1]];
      Insert(s[|s| - 1], sortedInit)
  }
}

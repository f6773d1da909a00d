/**
 * Sequence vocabulary shared by the model: distinctness, element sets,
 * removal of one value, and Python's prefix slice `s[:k]`.
 */
module Seqs {

  /** No value occurs twice in `s`. */
  predicate NoDup<T(==)>(s: seq<T>) {
    forall i, j :: 0 <= i < j < |s| ==> s[i] != s[j]
  }

  /** The set of values occurring in `s`. */
  function Elems<T>(s: seq<T>): set<T> {
    set x | x in s
  }

  /** `s` with every occurrence of `x` dropped, order otherwise kept. */
  function Without<T(==)>(s: seq<T>, x: T): (r: seq<T>)
    ensures Elems(r) == Elems(s) - {x}
    ensures NoDup(s) ==> NoDup(r)
    ensures x in s && NoDup(s) ==> |r| == |s| - 1
    ensures x !in s ==> r == s
  {
    if |s| == 0 then []
    else if s[0] == x then Without(s[1..], x)
    else
      var rest := Without(s[1..], x);
      assert Elems(s) == {s[0]} + Elems(s[1..]);
      assert Elems([s[0]] + rest) == {s[0]} + Elems(rest);
      [s[0]] + rest
  }

  /**
   * Python's `s[:k]`: the first `k` items for `k >= 0`, and all but the
   * last `-k` items for negative `k`, clamped to the sequence either way.
   */
  function PyPrefix<T>(s: seq<T>, k: int): (r: seq<T>)
    ensures 0 <= k ==> r == s[..if k <= |s| then k else |s|]
    ensures k < 0 ==> r == s[..if |s| + k < 0 then 0 else |s| + k]
  {
    var n := if k < 0 then |s| + k else k;
    s[..if n < 0 then 0 else if n <= |s| then n else |s|]
  }

  /** Dropping the head of a duplicate-free sequence removes exactly that value. */
  lemma DropFirst<T>(s: seq<T>)
    requires NoDup(s) && |s| > 0
    ensures NoDup(s[1..]) && Elems(s[1..]) == Elems(s) - {s[0]}
  {
    assert Elems(s) == {s[0]} + Elems(s[1..]);
  }

  /** The first components of a sequence of pairs, in order. */
  function Firsts<A, B>(s: seq<(A, B)>): (r: seq<A>)
    ensures |r| == |s| && forall i :: 0 <= i < |s| ==> r[i] == s[i].0
  {
    seq(|s|, i requires 0 <= i < |s| => s[i].0)
  }

  /** Each key's index in a sequence of pairs whose keys are distinct. */
  function Positions<V>(records: seq<(string, V)>): (positions: map<string, nat>)
    requires NoDup(Firsts(records))
    ensures positions.Keys == Elems(Firsts(records))
    ensures forall t :: t in positions ==> positions[t] < |records| && records[positions[t]].0 == t
  {
    var keys := Firsts(records);
    assert forall i, j :: 0 <= i < |records| && 0 <= j < |records| && records[i].0 == records[j].0 ==> i == j by {
      forall i, j | 0 <= i < |records| && 0 <= j < |records| && records[i].0 == records[j].0
        ensures i == j
      {
        assert keys[i] == keys[j];
      }
    }
    var positions := map i | 0 <= i < |records| :: records[i].0 := i;
    assert forall t :: t in positions <==> t in Elems(keys);
    positions
  }

  /** The values of `names` without repeats, each at its first occurrence. */
  function FirstSeen<T(==)>(names: seq<T>): (r: seq<T>)
    ensures NoDup(r) && Elems(r) == Elems(names)
  {
    if |names| == 0 then []
    else
      var init := FirstSeen(names[..|names| - 1]);
      var last := names[|names| - 1];
      assert names == names[..|names| - 1] + [last];
      assert Elems(names) == Elems(names[..|names| - 1]) + {last};
      assert Elems(init + [last]) == Elems(init) + {last};
      if last in init then init else init + [last]
  }
}

/**
 * The offset-based postings scanner of `get_postings_for_term`: from a
 * stored offset in the index text it reads up to the first ':', requires a
 * '[' right after it, and cuts out the bracket span that starts there,
 * counting '[' and ']' until the count returns to zero. Any failure (end of
 * text, a missing '[', a negative offset) yields `None`, which the callers
 * turn into an empty postings list.
 */
module PostingsScanner {
  import opened Wrappers

  /** Change of the bracket count caused by one character. */
  function Step(c: char): int {
    if c == '[' then 1 else if c == ']' then -1 else 0
  }

  /** Opening minus closing brackets in `s`. */
  function Depth(s: seq<char>): int {
    if |s| == 0 then 0 else Depth(s[..|s| - 1]) + Step(s[|s| - 1])
  }

  /**
   * A balanced span: it opens with '[' and its bracket count first returns
   * to zero at its last character.
   */
  predicate IsBalancedSpan(s: seq<char>) {
    && |s| > 0
    && s[0] == '['
    && Depth(s) == 0
    && forall k :: 0 < k < |s| ==> PrefixDepth(s, k) > 0
  }

  /** Bracket count after the first `k` characters of `s`. */
  function PrefixDepth(s: seq<char>, k: nat): int
    requires k <= |s|
  {
    Depth(s[..k])
  }

  /** A balanced span has no shorter balanced prefix. */
  lemma NoShorterBalancedPrefix(u: seq<char>, a: nat, b: nat)
    requires a < b <= |u| && IsBalancedSpan(u[..b])
    ensures !IsBalancedSpan(u[..a])
  {
    if 0 < a {
      assert PrefixDepth(u[..b], a) > 0;
      assert u[..b][..a] == u[..a];
    }
  }

  /** Two balanced spans that are prefixes of the same text are equal. */
  lemma BalancedPrefixUnique(u: seq<char>, a: nat, b: nat)
    requires a <= |u| && b <= |u|
    requires IsBalancedSpan(u[..a]) && IsBalancedSpan(u[..b])
    ensures a == b
  {
    if a < b {
      NoShorterBalancedPrefix(u, a, b);
    } else if b < a {
      NoShorterBalancedPrefix(u, b, a);
    }
  }

  /** Index of the first ':' at or after `i`, if there is one. */
  function ColonFrom(text: seq<char>, i: nat): (r: Option<nat>)
    requires i <= |text|
    ensures r.Some? ==> i <= r.value < |text| && text[r.value] == ':' && ':' !in text[i..r.value]
    ensures r.None? ==> ':' !in text[i..]
    decreases |text| - i
  {
    if i == |text| then None
    else if text[i] == ':' then Some(i)
    else
      var r := ColonFrom(text, i + 1);
      assert r.Some? ==> text[i..r.value] == [text[i]] + text[i + 1..r.value];
      assert text[i..] == [text[i]] + text[i + 1..];
      r
  }

  /**
   * The bracket loop: `u` starts with the '[' already read, `i` characters
   * have been consumed and the count `d` is still positive. Returns the
   * length of the span at which the count reaches zero.
   */
  function Close(u: seq<char>, i: nat, d: int): (r: Option<nat>)
    requires 0 < i <= |u| && u[0] == '['
    requires d == Depth(u[..i]) && forall k :: 0 < k <= i ==> Depth(u[..k]) > 0
    ensures r.Some? ==> i < r.value <= |u| && IsBalancedSpan(u[..r.value])
    ensures r.None? ==> forall e :: i < e <= |u| ==> Depth(u[..e]) > 0
    decreases |u| - i
  {
    if i == |u| then None
    else
      assert u[..i + 1][..i] == u[..i];
      var d' := d + Step(u[i]);
      if d' == 0 then
        var s := u[..i + 1];
        forall k | 0 < k < |s|
          ensures Depth(s[..k]) > 0
        {
          assert s[..k] == u[..k];
        }
        Some(i + 1)
      else
        Close(u, i + 1, d')
  }

  /**
   * Where the postings array starts: the position right after the first ':'
   * at or after the offset, provided the character there is '['.
   */
  function SpanStart(text: seq<char>, offset: int): (r: Option<nat>)
    ensures r.Some? ==> 0 <= offset && 0 < r.value < |text| && text[r.value] == '['
    ensures r.Some? ==> var from := if offset <= |text| then offset else |text|;
      from < r.value && text[r.value - 1] == ':' && ':' !in text[from..r.value - 1]
    ensures offset < 0 ==> r.None?
  {
    if offset < 0 then None
    else
      var from := if offset <= |text| then offset else |text|;
      match ColonFrom(text, from)
      case None => None
      case Some(j) => if j + 1 < |text| && text[j + 1] == '[' then Some(j + 1) else None
  }

  /**
   * The whole scan at `offset`: the balanced span opening at `SpanStart`,
   * or `None` when there is no '[' where one is needed or the text ends
   * before the brackets balance.
   */
  function ScanAt(text: seq<char>, offset: int): (r: Option<seq<char>>)
    ensures SpanStart(text, offset).None? ==> r.None?
    ensures r.Some? ==> var p := SpanStart(text, offset).value;
      IsBalancedSpan(r.value) && r.value <= text[p..]
    ensures r.None? && SpanStart(text, offset).Some? ==>
      var p := SpanStart(text, offset).value;
      forall e :: 0 <= e <= |text| - p ==> !IsBalancedSpan(text[p..][..e])
  {
    match SpanStart(text, offset)
    case None => None
    case Some(p) =>
      var u := text[p..];
      assert u[..1] == ['['];
      match Close(u, 1, 1)
      case Some(e) => Some(u[..e])
      case None =>
        assert forall e :: 0 < e <= 1 ==> Depth(u[..e]) > 0;
        None
  }

  /**
   * The writer's record shape read back: if the text at `offset` is a
   * serialised token free of ':', then ':', then a balanced postings text,
   * the scan returns exactly that postings text, whatever follows it.
   */
  lemma {:induction false} ScanRecord(pre: seq<char>, token: seq<char>, postings: seq<char>, post: seq<char>)
    requires ':' !in token && IsBalancedSpan(postings)
    ensures ScanAt(pre + token + [':'] + postings + post, |pre|) == Some(postings)
  {
    var text := pre + token + [':'] + postings + post;
    var j := |pre| + |token|;
    assert text[|pre|..j] == token;
    assert text[j] == ':';
    ColonFirst(text, |pre|, j);
    assert text[j + 1] == postings[0];
    var p := j + 1;
    assert SpanStart(text, |pre|) == Some(p);
    var u := text[p..];
    assert u == postings + post;
    assert u[..|postings|] == postings;
    var r := ScanAt(text, |pre|);
    assert r.value <= u;
    assert r.value == u[..|r.value|];
    BalancedPrefixUnique(u, |r.value|, |postings|);
  }

  /** The first ':' found from `i` is `j` when `j` holds one and none lies before it. */
  lemma {:induction false} ColonFirst(text: seq<char>, i: nat, j: nat)
    requires i <= j < |text| && text[j] == ':' && ':' !in text[i..j]
    ensures ColonFrom(text, i) == Some(j)
    decreases j - i
  {
    if i < j {
      assert text[i] == text[i..j][0];
      assert text[i + 1..j] == text[i..j][1..];
      ColonFirst(text, i + 1, j);
    }
  }
}

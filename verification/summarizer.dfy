/**
 * `truncate_text`: the page text sent for summarising is cut to a
 * character budget of four characters per token, with "..." appended when
 * anything was cut.
 */
module Summarizer {
  import opened Seqs

  /** The token budget used when none is given. */
  const DefaultMaxTokens: int := 50000

  const Ellipsis: string := "..."

  /**
   * The text itself when it fits in `4 * maxTokens` characters, otherwise
   * Python's `text[:4 * maxTokens]` followed by "...". A negative budget
   * makes the slice drop characters from the end, as Python does.
   */
  function TruncateText(text: string, maxTokens: int): (r: string)
    ensures |text| <= 4 * maxTokens ==> r == text
    ensures |text| > 4 * maxTokens ==> r == PyPrefix(text, 4 * maxTokens) + Ellipsis
    ensures 0 <= maxTokens ==> |r| <= 4 * maxTokens + 3
    ensures 0 <= maxTokens && |text| > 4 * maxTokens ==> |r| == 4 * maxTokens + 3
    ensures 0 <= maxTokens ==> var n := if |text| <= 4 * maxTokens then |text| else 4 * maxTokens;
      n <= |r| && r[..n] == text[..n]
  {
    var charLimit := maxTokens * 4;
    if |text| > charLimit then PyPrefix(text, charLimit) + Ellipsis else text
  }

  /** Truncating twice with the same non-negative budget is truncating once. */
  lemma TruncateIdempotent(text: string, maxTokens: int)
    requires 0 <= maxTokens
    ensures TruncateText(TruncateText(text, maxTokens), maxTokens) == TruncateText(text, maxTokens)
  {
    var r := TruncateText(text, maxTokens);
    if |text| > 4 * maxTokens {
      assert r[..4 * maxTokens] == text[..4 * maxTokens];
    }
  }

  /** With a negative budget a second truncation cuts again: the budget must be non-negative. */
  lemma TruncateNegativeBudget()
    ensures TruncateText(TruncateText("abcdefgh", -1), -1) != TruncateText("abcdefgh", -1)
  {
    assert TruncateText("abcdefgh", -1) == "abcd" + Ellipsis;
    assert TruncateText("abcd...", -1) == "abc" + Ellipsis;
  }
}

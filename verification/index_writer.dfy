/**
 * The JSON framing of the merged index file: `'{'`, then one record
 * `"token":[postings]` per token with a ',' before every record but the
 * first, then `'}'`. Writing a record first emits the separator, then
 * remembers the current offset as the token's position, then emits the
 * serialised token, ':' and the serialised postings (`_write_current_token`).
 */
module IndexWriter {
  import opened Wrappers
  import opened Seqs
  import opened PostingsScanner

  /** `json.dumps` of a token: quoted, with '"' and '\' escaped. */
  function EncodeToken(t: string): (r: string)
    ensures ':' !in t ==> ':' !in r
  {
    ['"'] + Escape(t) + ['"']
  }

  function Escape(t: string): (r: string)
    ensures ':' !in t ==> ':' !in r
  {
    if |t| == 0 then []
    else
      var c := if t[0] == '"' || t[0] == '\\' then ['\\', t[0]] else [t[0]];
      c + Escape(t[1..])
  }

  /** One record as it appears in the file. */
  function Record(token: string, postings: string): string {
    EncodeToken(token) + [':'] + postings
  }

  /** The reference framing: records joined by ','. */
  function Join(sep: string, items: seq<string>): string {
    if |items| == 0 then []
    else if |items| == 1 then items[0]
    else items[0] + sep + Join(sep, items[1..])
  }

  /** The records of `entries`, in order. */
  function Records(entries: seq<(string, string)>): (r: seq<string>)
    ensures |r| == |entries|
    ensures forall i :: 0 <= i < |entries| ==> r[i] == Record(entries[i].0, entries[i].1)
  {
    if |entries| == 0 then [] else [Record(entries[0].0, entries[0].1)] + Records(entries[1..])
  }

  /** `_write_current_token`: the grown output and the offset recorded for the token. */
  function WriteToken(out: string, token: string, postings: string, first: bool): (r: (string, nat))
    ensures r.1 == |out| + (if first then 0 else 1)
    ensures r.0 == out + (if first then [] else [',']) + Record(token, postings)
    ensures r.0[r.1..] == Record(token, postings)
  {
    var sep := if first then [] else [','];
    var out' := out + sep;
    (out' + Record(token, postings), |out'|)
  }

  /** Writes every entry in turn, recording each token's offset. */
  function WriteAll(out: string, entries: seq<(string, string)>, first: bool, positions: map<string, nat>)
    : (r: (string, map<string, nat>))
    decreases |entries|
  {
    if |entries| == 0 then (out, positions)
    else
      var (out', offset) := WriteToken(out, entries[0].0, entries[0].1, first);
      WriteAll(out', entries[1..], false, positions[entries[0].0 := offset])
  }

  /** The text written before the first record. */
  function Opening(): string {
    [OpenBrace]
  }

  /** The text written after the last record. */
  function Closing(): string {
    [CloseBrace]
  }

  const OpenBrace: char := '{'
  const CloseBrace: char := '}'


  /** The whole index file and the token-position map saved beside it. */
  function WriteIndex(entries: seq<(string, string)>): (r: (string, map<string, nat>)) {
    var w := WriteAll(Opening(), entries, true, map[]);
    (w.0 + Closing(), w.1)
  }

  /** The text at `offset` begins with the record of `token`. */
  predicate RecordAt(text: string, offset: nat, token: string, postings: string) {
    var rec := Record(token, postings);
    offset + |rec| <= |text| && text[offset..offset + |rec|] == rec
  }

  /** The writer's output is `out`, then the records joined by ','. */
  lemma {:induction false} WriteAllFraming(out: string, entries: seq<(string, string)>, first: bool, positions: map<string, nat>)
    ensures WriteAll(out, entries, first, positions).0 ==
      out + (if first || |entries| == 0 then [] else [',']) + Join([','], Records(entries))
    decreases |entries|
  {
    if |entries| > 0 {
      var (out', offset) := WriteToken(out, entries[0].0, entries[0].1, first);
      WriteAllFraming(out', entries[1..], false, positions[entries[0].0 := offset]);
      assert Records(entries)[1..] == Records(entries[1..]);
    }
  }

  /** The index file is '{', the records joined by ',', and '}'. */
  lemma WriteIndexFraming(entries: seq<(string, string)>)
    ensures WriteIndex(entries).0 == Opening() + Join([','], Records(entries)) + Closing()
  {
    WriteAllFraming(Opening(), entries, true, map[]);
  }

  /** The writer only appends. */
  lemma {:induction false} WriteAllExtends(out: string, entries: seq<(string, string)>, first: bool, positions: map<string, nat>)
    ensures out <= WriteAll(out, entries, first, positions).0
    decreases |entries|
  {
    if |entries| > 0 {
      var (out', offset) := WriteToken(out, entries[0].0, entries[0].1, first);
      WriteAllExtends(out', entries[1..], false, positions[entries[0].0 := offset]);
    }
  }

  /** The position map gains exactly the written tokens; other positions are kept. */
  lemma {:induction false} WriteAllKeys(out: string, entries: seq<(string, string)>, first: bool, positions: map<string, nat>)
    ensures WriteAll(out, entries, first, positions).1.Keys == positions.Keys + Elems(Firsts(entries))
    ensures forall t :: t in positions && t !in Firsts(entries) ==>
      WriteAll(out, entries, first, positions).1[t] == positions[t]
    decreases |entries|
  {
    if |entries| > 0 {
      var (out', offset) := WriteToken(out, entries[0].0, entries[0].1, first);
      WriteAllKeys(out', entries[1..], false, positions[entries[0].0 := offset]);
      assert Firsts(entries) == [entries[0].0] + Firsts(entries[1..]);
      assert Elems(Firsts(entries)) == {entries[0].0} + Elems(Firsts(entries[1..]));
    }
  }

  /**
   * Every token's recorded position points at its own record, provided no
   * token is written twice.
   */
  lemma {:induction false} WriteAllRecords(out: string, entries: seq<(string, string)>, first: bool, positions: map<string, nat>)
    requires NoDup(Firsts(entries))
    ensures forall i :: 0 <= i < |entries| ==>
      && entries[i].0 in WriteAll(out, entries, first, positions).1
      && RecordAt(WriteAll(out, entries, first, positions).0,
                  WriteAll(out, entries, first, positions).1[entries[i].0], entries[i].0, entries[i].1)
    decreases |entries|
  {
    if |entries| > 0 {
      var w := WriteAll(out, entries, first, positions);
      var (out', offset) := WriteToken(out, entries[0].0, entries[0].1, first);
      var positions' := positions[entries[0].0 := offset];
      assert w == WriteAll(out', entries[1..], false, positions');
      assert Firsts(entries) == [entries[0].0] + Firsts(entries[1..]);
      WriteAllRecords(out', entries[1..], false, positions');
      WriteAllExtends(out', entries[1..], false, positions');
      WriteAllKeys(out', entries[1..], false, positions');
      forall i | 0 <= i < |entries|
        ensures entries[i].0 in w.1 && RecordAt(w.0, w.1[entries[i].0], entries[i].0, entries[i].1)
      {
        if i == 0 {
          assert entries[0].0 !in Firsts(entries[1..]);
          assert w.1[entries[0].0] == offset;
          RecordAtExtends(out', w.0, offset, entries[0].0, entries[0].1);
        } else {
          assert entries[i] == entries[1..][i - 1];
        }
      }
    }
  }

  /** A record stays where it is when the text grows at the end. */
  lemma RecordAtExtends(a: string, b: string, offset: nat, token: string, postings: string)
    requires a <= b && RecordAt(a, offset, token, postings)
    ensures RecordAt(b, offset, token, postings)
  {
    var n := |Record(token, postings)|;
    assert b[offset..offset + n] == a[offset..offset + n];
  }

  /**
   * Round trip of writer and reader: scanning the written index at the
   * position recorded for the `i`-th token returns exactly the postings text
   * written for it, when tokens are distinct and free of ':' and the
   * postings text is a balanced bracket span.
   */
  lemma ScanWrittenIndex(entries: seq<(string, string)>, i: nat)
    requires NoDup(Firsts(entries)) && i < |entries|
    requires ':' !in entries[i].0 && IsBalancedSpan(entries[i].1)
    ensures entries[i].0 in WriteIndex(entries).1
    ensures ScanAt(WriteIndex(entries).0, WriteIndex(entries).1[entries[i].0]) == Some(entries[i].1)
  {
    WrittenRecord(entries, i);
    ScanRecordAt(WriteIndex(entries).0, WriteIndex(entries).1[entries[i].0], entries[i].0, entries[i].1);
  }

  /** The position map of the index file covers exactly the written tokens. */
  lemma WrittenKeys(entries: seq<(string, string)>)
    ensures WriteIndex(entries).1.Keys == Elems(Firsts(entries))
  {
    WriteAllKeys(Opening(), entries, true, map[]);
  }

  /** The position recorded for the `i`-th token points at its record in the index file. */
  lemma WrittenRecord(entries: seq<(string, string)>, i: nat)
    requires NoDup(Firsts(entries)) && i < |entries|
    ensures entries[i].0 in WriteIndex(entries).1
    ensures RecordAt(WriteIndex(entries).0, WriteIndex(entries).1[entries[i].0], entries[i].0, entries[i].1)
  {
    ClosedRecord(Opening(), entries, i);
  }

  /** A record written after `out` survives the closing '}'. */
  lemma ClosedRecord(out: string, entries: seq<(string, string)>, i: nat)
    requires NoDup(Firsts(entries)) && i < |entries|
    ensures entries[i].0 in WriteAll(out, entries, true, map[]).1
    ensures RecordAt(WriteAll(out, entries, true, map[]).0 + Closing(),
                     WriteAll(out, entries, true, map[]).1[entries[i].0], entries[i].0, entries[i].1)
  {
    var w := WriteAll(out, entries, true, map[]);
    WriteAllRecords(out, entries, true, map[]);
    RecordAtExtends(w.0, w.0 + Closing(), w.1[entries[i].0], entries[i].0, entries[i].1);
  }

  /** A record found at `offset` scans back to its postings text. */
  lemma ScanRecordAt(text: string, offset: nat, token: string, postings: string)
    requires RecordAt(text, offset, token, postings)
    requires ':' !in token && IsBalancedSpan(postings)
    ensures ScanAt(text, offset) == Some(postings)
  {
    var rec := Record(token, postings);
    var pre := text[..offset];
    var post := text[offset + |rec|..];
    assert text == pre + text[offset..offset + |rec|] + post;
    assert text == pre + EncodeToken(token) + [':'] + postings + post;
    ScanRecord(pre, EncodeToken(token), postings, post);
  }

  /** A text without square brackets. */
  predicate BracketFree(s: string) {
    '[' !in s && ']' !in s
  }

  /**
   * `json.dumps` of a postings list: '[', the serialised postings joined by
   * ", ", and ']'. Each serialised posting is a JSON object, abstract here.
   */
  function PostingsText(items: seq<string>): string {
    ['['] + Join([',', ' '], items) + [']']
  }

  /** Bracket counts add up over concatenation. */
  lemma {:induction false} DepthConcat(a: string, b: string)
    ensures Depth(a + b) == Depth(a) + Depth(b)
    decreases |b|
  {
    if |b| > 0 {
      var b' := b[..|b| - 1];
      assert (a + b)[..|a + b| - 1] == a + b';
      assert (a + b)[|a + b| - 1] == b[|b| - 1];
      DepthConcat(a, b');
      assert Depth(a + b) == Depth(a + b') + Step(b[|b| - 1]);
    } else {
      assert a + b == a;
    }
  }

  /** Text without brackets leaves the bracket count unchanged. */
  lemma {:induction false} BracketFreeDepth(s: string)
    requires BracketFree(s)
    ensures Depth(s) == 0
    decreases |s|
  {
    if |s| > 0 {
      assert s[|s| - 1] in s;
      var s' := s[..|s| - 1];
      assert forall c :: c in s' ==> c in s;
      BracketFreeDepth(s');
    }
  }

  /** Joining bracket-free items with a bracket-free separator gives bracket-free text. */
  lemma {:induction false} JoinBracketFree(sep: string, items: seq<string>)
    requires BracketFree(sep)
    requires forall i :: 0 <= i < |items| ==> BracketFree(items[i])
    ensures BracketFree(Join(sep, items))
    decreases |items|
  {
    if |items| > 1 {
      JoinBracketFree(sep, items[1..]);
      var rest := Join(sep, items[1..]);
      assert Join(sep, items) == items[0] + sep + rest;
      assert forall c :: c in items[0] + sep + rest ==> c in items[0] || c in sep || c in rest;
    }
  }

  /**
   * A postings list whose serialised postings hold no brackets is a balanced
   * bracket span, so the reader's scan cuts out exactly that list.
   */
  lemma PostingsTextBalanced(items: seq<string>)
    requires forall i :: 0 <= i < |items| ==> BracketFree(items[i])
    ensures IsBalancedSpan(PostingsText(items))
  {
    var m := Join([',', ' '], items);
    JoinBracketFree([',', ' '], items);
    var s := PostingsText(items);
    BracketFreeDepth(m);
    DepthConcat(['['] + m, [']']);
    DepthConcat(['['], m);
    forall k | 0 < k < |s|
      ensures PrefixDepth(s, k) > 0
    {
      var m' := m[..k - 1];
      assert s[..k] == ['['] + m';
      assert forall c :: c in m' ==> c in m;
      BracketFreeDepth(m');
      DepthConcat(['['], m');
    }
  }
}

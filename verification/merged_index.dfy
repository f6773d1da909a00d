/**
 * The root indexer's merge, end to end: the sorted partial files are merged
 * and the merged records are written as the JSON index file, each postings
 * list serialised by `serialize` (`json.dump` of the list, abstract here).
 * The file itself records no positions; the positions are where each record
 * starts, which is what the reader's position map must hold.
 */
module MergedIndex {
  import opened Wrappers
  import opened Seqs
  import opened StringOrder
  import opened PostingsScanner
  import opened IndexWriter
  import opened KWayMerge

  /** The merged records with their postings serialised. */
  function Serialized<P>(merged: seq<Record<P>>, serialize: seq<P> -> string): (entries: seq<(string, string)>)
    ensures |entries| == |merged| && Firsts(entries) == Firsts(merged)
    ensures forall i :: 0 <= i < |merged| ==> entries[i].1 == serialize(merged[i].1)
  {
    var entries := seq(|merged|, i requires 0 <= i < |merged| => (merged[i].0, serialize(merged[i].1)));
    assert Firsts(entries) == Firsts(merged);
    entries
  }

  /**
   * Merging, then writing: every token of the partial files is written once,
   * in ascending order, with the multiset union of its postings, and
   * scanning the file at the token's record yields exactly its serialised
   * postings, when tokens hold no ':' and every serialised list is a
   * balanced bracket span.
   */
  method MergeAndWrite<P(!new)>(files: seq<seq<Record<P>>>, serialize: seq<P> -> string)
    returns (merged: seq<Record<P>>, text: string, positions: map<string, nat>)
    requires forall f :: 0 <= f < |files| ==> SortedFile(files[f])
    requires forall f, k :: 0 <= f < |files| && 0 <= k < |files[f]| ==> ':' !in files[f][k].0
    requires forall ps :: IsBalancedSpan(serialize(ps))
    ensures SortedFile(merged)
    ensures forall t :: Bag(merged, t) == BagAll(files, t)
    ensures positions.Keys == TokenSet(files)
    ensures text == Opening() + Join([','], Records(Serialized(merged, serialize))) + Closing()
    ensures forall i :: 0 <= i < |merged| ==>
      merged[i].0 in positions && ScanAt(text, positions[merged[i].0]) == Some(serialize(merged[i].1))
  {
    merged := Merge(files);
    var entries := Serialized(merged, serialize);
    AscendingNoDup(Firsts(merged));
    text, positions := WriteIndex(entries).0, WriteIndex(entries).1;
    WriteIndexFraming(entries);
    WrittenKeys(entries);
    forall i | 0 <= i < |merged|
      ensures merged[i].0 in positions && ScanAt(text, positions[merged[i].0]) == Some(serialize(merged[i].1))
    {
      assert Firsts(merged)[i] in Elems(Firsts(merged));
      var f, k :| 0 <= f < |files| && 0 <= k < |files[f]| && files[f][k].0 == merged[i].0;
      assert IsBalancedSpan(serialize(merged[i].1));
      ScanWrittenIndex(entries, i);
    }
  }
}

/**
 * `FileOpener.read_zip`: reads the crawled pages batch by batch, file after
 * file and record after record, keeping only the first page of every URL it
 * has not seen in earlier batches, up to `count` pages. The zip archive and
 * its JSON files are given here as the list of `(url, content)` records of
 * each file, in archive order.
 */
module BatchReader {
  import opened Wrappers
  import opened Seqs

  type Page = (string, string)

  /** All records of all files, in order. */
  function Flatten(files: seq<seq<Page>>): seq<Page> {
    if |files| == 0 then [] else Flatten(files[..|files| - 1]) + files[|files| - 1]
  }

  /**
   * The reference: the pages of `stream` whose URL is neither in `seen` nor
   * on an earlier page, each at its first occurrence.
   */
  function Fresh(stream: seq<Page>, seen: set<string>): (r: seq<Page>)
    ensures NoDup(Firsts(r))
    ensures forall i :: 0 <= i < |r| ==> r[i].0 !in seen && r[i] in stream
  {
    if |stream| == 0 then []
    else
      var init := Fresh(stream[..|stream| - 1], seen);
      var e := stream[|stream| - 1];
      if e.0 in seen || e.0 in Firsts(init) then init
      else
        assert Firsts(init + [e]) == Firsts(init) + [e.0];
        init + [e]
  }

  /** Python's `count` argument: `None` reads everything, otherwise at most `count` new pages. */
  function Take(pages: seq<Page>, count: Option<int>): (r: seq<Page>)
    ensures r <= pages
    ensures count.Some? ==> |r| <= if count.value < 0 then 0 else count.value
    ensures count.None? || |pages| <= count.value ==> r == pages
  {
    match count
    case None => pages
    case Some(c) => if c <= 0 then [] else if c < |pages| then pages[..c] else pages
  }

  /** Reading more of the stream only extends the fresh pages found so far. */
  lemma {:induction false} FreshExtends(s: seq<Page>, t: seq<Page>, seen: set<string>)
    ensures Fresh(s, seen) <= Fresh(s + t, seen)
    decreases |t|
  {
    if |t| > 0 {
      var t' := t[..|t| - 1];
      FreshExtends(s, t', seen);
      assert (s + t)[..|s + t| - 1] == s + t';
    } else {
      assert s + t == s;
    }
  }

  /** One more record: kept exactly when its URL is new. */
  lemma FreshSnoc(s: seq<Page>, e: Page, seen: set<string>)
    ensures Fresh(s + [e], seen) ==
      if e.0 in seen || e.0 in Firsts(Fresh(s, seen)) then Fresh(s, seen) else Fresh(s, seen) + [e]
  {
    assert (s + [e])[..|s|] == s;
  }

  /** One record read by the loop keeps the pages and the seen set in step with `Fresh`. */
  lemma ReadOne(consumed: seq<Page>, pages: seq<Page>, seenNow: set<string>, seen: set<string>, e: Page)
    requires pages == Fresh(consumed, seen) && seenNow == seen + Elems(Firsts(pages))
    ensures e.0 in seenNow ==> Fresh(consumed + [e], seen) == pages
    ensures e.0 !in seenNow ==> Fresh(consumed + [e], seen) == pages + [e]
    ensures seenNow + {e.0} == seen + Elems(Firsts(pages + [e]))
  {
    FreshSnoc(consumed, e, seen);
    assert Firsts(pages + [e]) == Firsts(pages) + [e.0];
    assert Elems(Firsts(pages) + [e.0]) == Elems(Firsts(pages)) + {e.0};
  }

  lemma FlattenSnoc(files: seq<seq<Page>>, i: nat)
    requires i < |files|
    ensures Flatten(files[..i + 1]) == Flatten(files[..i]) + files[i]
  {
    assert files[..i + 1][..i] == files[..i];
  }

  /**
   * `read_zip`: the pages returned, as the dictionary's insertion order, and
   * the grown set of seen URLs.
   */
  method ReadZip(files: seq<seq<Page>>, seen: set<string>, count: Option<int>)
    returns (pages: seq<Page>, seen': set<string>)
    ensures pages == Take(Fresh(Flatten(files), seen), count)
    ensures seen' == seen + Elems(Firsts(pages))
  {
    pages := [];
    seen' := seen;
    var processed := 0;
    var f := 0;
    ghost var consumed: seq<Page> := [];
    while f < |files|
      invariant 0 <= f <= |files|
      invariant consumed == Flatten(files[..f])
      invariant pages == Fresh(consumed, seen)
      invariant processed == |pages|
      invariant seen' == seen + Elems(Firsts(pages))
      invariant count.Some? ==> processed <= if count.value < 0 then 0 else count.value
    {
      if count.Some? && processed >= count.value {
        break;
      }
      var l := 0;
      while l < |files[f]|
        invariant 0 <= l <= |files[f]|
        invariant consumed == Flatten(files[..f]) + files[f][..l]
        invariant pages == Fresh(consumed, seen)
        invariant processed == |pages|
        invariant seen' == seen + Elems(Firsts(pages))
        invariant count.Some? ==> processed <= if count.value < 0 then 0 else count.value
      {
        if count.Some? && processed >= count.value {
          break;
        }
        var (url, content) := files[f][l];
        ReadOne(consumed, pages, seen', seen, (url, content));
        assert files[f][..l + 1] == files[f][..l] + [files[f][l]];
        if url !in seen' {
          seen' := seen' + {url};
          pages := pages + [(url, content)];
          processed := processed + 1;
        }
        consumed := consumed + [(url, content)];
        l := l + 1;
      }
      if l < |files[f]| {
        ReadStops(files, f, l, consumed, pages, seen, count);
        return;
      }
      assert files[f][..l] == files[f];
      FlattenSnoc(files, f);
      f := f + 1;
    }
    if f < |files| {
      assert files[..f] + files[f..] == files;
      ReadStops(files, f, 0, consumed, pages, seen, count);
      return;
    }
    assert files[..f] == files;
  }

  /** Once `count` pages are found, the rest of the stream changes nothing. */
  lemma ReadStops(files: seq<seq<Page>>, f: nat, l: nat, consumed: seq<Page>, pages: seq<Page>,
                  seen: set<string>, count: Option<int>)
    requires f < |files| && l <= |files[f]|
    requires consumed == Flatten(files[..f]) + files[f][..l]
    requires pages == Fresh(consumed, seen)
    requires count.Some? && |pages| >= count.value
    requires |pages| <= if count.value < 0 then 0 else count.value
    ensures pages == Take(Fresh(Flatten(files), seen), count)
  {
    var rest := files[f][l..] + Flatten(files[f + 1..]);
    StreamSplit(files, f, l);
    FreshExtends(consumed, rest, seen);
    var all := Fresh(consumed + rest, seen);
    assert pages <= all;
    if count.value > 0 {
      assert |pages| == count.value;
      assert all[..count.value] == pages;
    }
  }

  /** The whole stream is what was consumed up to record `l` of file `f`, then the rest. */
  lemma StreamSplit(files: seq<seq<Page>>, f: nat, l: nat)
    requires f < |files| && l <= |files[f]|
    ensures Flatten(files) == (Flatten(files[..f]) + files[f][..l]) + (files[f][l..] + Flatten(files[f + 1..]))
  {
    FlattenSplit(files, f);
    assert files[f] == files[f][..l] + files[f][l..];
  }

  /** Flattening splits around any file. */
  lemma {:induction false} FlattenSplit(files: seq<seq<Page>>, f: nat)
    requires f < |files|
    ensures Flatten(files) == Flatten(files[..f]) + files[f] + Flatten(files[f + 1..])
    decreases |files|
  {
    if f == |files| - 1 {
      assert files[f + 1..] == [];
    } else {
      var init := files[..|files| - 1];
      FlattenSplit(init, f);
      assert init[..f] == files[..f] && init[f] == files[f];
      assert init[f + 1..] == files[f + 1..|files| - 1];
      assert files[f + 1..] == init[f + 1..] + [files[|files| - 1]];
      assert Flatten(files[f + 1..]) == Flatten(init[f + 1..]) + files[|files| - 1] by {
        assert files[f + 1..][..|files[f + 1..]| - 1] == init[f + 1..];
      }
    }
  }

  /**
   * Within one read, the page kept for a URL is its first record in the
   * stream: a later record with the same URL never replaces it.
   */
  lemma {:induction false} FreshKeepsFirst(stream: seq<Page>, seen: set<string>, i: nat)
    requires i < |stream| && stream[i].0 !in seen
    requires forall k :: 0 <= k < i ==> stream[k].0 != stream[i].0
    ensures stream[i] in Fresh(stream, seen)
    decreases |stream|
  {
    var init := stream[..|stream| - 1];
    var e := stream[|stream| - 1];
    assert stream == init + [e];
    if i < |stream| - 1 {
      FreshKeepsFirst(init, seen, i);
      FreshExtends(init, [e], seen);
    }
  }

  /**
   * Successive reads return disjoint URL sets: the second read starts from
   * the seen set the first one left behind.
   */
  lemma BatchesDisjoint(files1: seq<seq<Page>>, files2: seq<seq<Page>>, seen: set<string>,
                        count1: Option<int>, count2: Option<int>)
    ensures var first := Take(Fresh(Flatten(files1), seen), count1);
      var second := Take(Fresh(Flatten(files2), seen + Elems(Firsts(first))), count2);
      forall i, j :: 0 <= i < |first| && 0 <= j < |second| ==> first[i].0 != second[j].0 && second[j].0 !in seen
  {
    var first := Take(Fresh(Flatten(files1), seen), count1);
    var second := Take(Fresh(Flatten(files2), seen + Elems(Firsts(first))), count2);
    forall i, j | 0 <= i < |first| && 0 <= j < |second|
      ensures first[i].0 != second[j].0 && second[j].0 !in seen
    {
      assert Firsts(first)[i] == first[i].0;
    }
  }
}

/** Ranking a counter by count: `sorted(items, key=count, reverse=True)[:n]`
    (the bar chart) and `Counter.most_common(n)` (the top-20 table). Both are
    a stable sort by descending count followed by a prefix: entries with equal
    counts keep their insertion order. */
module Ranking {
  import opened Seqs
  import opened Frequency

  /** Counts never increase along `s`. */
  predicate Descending(s: seq<Entry>) {
    forall i, j :: 0 <= i < j < |s| ==> s[i].1 >= s[j].1
  }

  function CountIs(n: nat): Entry -> bool {
    (e: Entry) => e.1 == n
  }

  /** The entries of `s` whose count is `n`, in their order in `s`. */
  function WithCount(s: seq<Entry>, n: nat): seq<Entry> {
    Filter(CountIs(n), s)
  }

  /** Place `e` behind every entry of `sorted` whose count is at least its own. */
  function Insert(sorted: seq<Entry>, e: Entry): (r: seq<Entry>)
    ensures multiset(r) == multiset(sorted) + multiset{e}
    ensures |r| == |sorted| + 1
  {
    if sorted == [] then [e]
    else if sorted[0].1 < e.1 then [e] + sorted
    else
      var rest := Insert(sorted[1..], e);
      assert sorted == [sorted[0]] + sorted[1..];
      [sorted[0]] + rest
  }

  lemma {:induction false} InsertDescending(sorted: seq<Entry>, e: Entry)
    requires Descending(sorted)
    ensures Descending(Insert(sorted, e))
  {
    if sorted != [] && sorted[0].1 >= e.1 {
      var rest := sorted[1..];
      InsertDescending(rest, e);
      var r := Insert(rest, e);
      forall x | x in r ensures x.1 <= sorted[0].1 {
        assert x in multiset(r);
        if x != e {
          assert x in rest;
        }
      }
    }
  }

  /** Inserting `e` appends it to the entries of its count and leaves the others alone. */
  lemma {:induction false} InsertWithCount(sorted: seq<Entry>, e: Entry, n: nat)
    requires Descending(sorted)
    ensures WithCount(Insert(sorted, e), n) == WithCount(sorted, n) + (if e.1 == n then [e] else [])
  {
    if sorted == [] {
      var only: seq<Entry> := [e];
      assert only[1..] == [];
    } else if sorted[0].1 < e.1 {
      assert ([e] + sorted)[1..] == sorted;
      if e.1 == n {
        FilterNone(CountIs(n), sorted);
      }
    } else {
      InsertWithCount(sorted[1..], e, n);
      assert ([sorted[0]] + Insert(sorted[1..], e))[1..] == Insert(sorted[1..], e);
    }
  }

  /** `sorted(s, key=lambda item: item[1], reverse=True)`: a permutation of `s`
      with counts descending, in which the entries of each count appear in
      their order in `s` (Python's sort is stable, also with `reverse=True`). */
  function SortByCount(s: seq<Entry>): (r: seq<Entry>)
    ensures multiset(r) == multiset(s)
    ensures |r| == |s|
    ensures Descending(r)
    ensures forall n :: WithCount(r, n) == WithCount(s, n)
    decreases |s|
  {
    if s == [] then []
    else
      var init, e := s[..|s| - 1], s[|s| - 1];
      assert s == init + [e];
      var sortedInit := SortByCount(init);
      InsertDescending(sortedInit, e);
      InsertKeepsStable(init, e, sortedInit);
      Insert(sortedInit, e)
  }

  /** If `sortedInit` is a stable sort of `init`, inserting `e` gives a stable sort of `init + [e]`. */
  lemma InsertKeepsStable(init: seq<Entry>, e: Entry, sortedInit: seq<Entry>)
    requires Descending(sortedInit)
    requires forall n :: WithCount(sortedInit, n) == WithCount(init, n)
    ensures forall n :: WithCount(Insert(sortedInit, e), n) == WithCount(init + [e], n)
  {
    forall n ensures WithCount(Insert(sortedInit, e), n) == WithCount(init + [e], n) {
      InsertWithCount(sortedInit, e, n);
      var last: seq<Entry> := [e];
      FilterAppend(CountIs(n), init, last);
      assert last[1..] == [];
    }
  }

  /** `most_common(n)`, and the bar chart's `sorted(...)[:20]` with `n == 20`:
      the `min(n, len)` entries of highest count, sorted descending. Every
      entry is an item of the counter, no item is listed twice, nothing left
      out counts more than anything listed, and the entries of any one count
      are a leading part of that count's entries in insertion order. */
  function MostCommon(c: Counter, n: nat): (r: seq<Entry>)
    requires c.Valid()
    ensures |r| == Min(n, |c.keys|)
    ensures Descending(r)
    ensures forall i :: 0 <= i < |r| ==> r[i].0 in c.counts && r[i].1 == c.counts[r[i].0]
    ensures forall i, j :: 0 <= i < j < |r| ==> r[i].0 != r[j].0
    ensures forall i, w :: 0 <= i < |r| && w in c.counts && (w, c.counts[w]) !in r ==> c.counts[w] <= r[i].1
    ensures forall m :: WithCount(r, m) <= WithCount(c.Items(), m)
  {
    var items := c.Items();
    var sorted := SortByCount(items);
    var k := Min(n, |c.keys|);
    SortedItems(c, sorted);
    OmittedCountLess(c, sorted, k);
    forall m ensures WithCount(sorted[..k], m) <= WithCount(items, m) {
      FilterPrefix(CountIs(m), sorted, k);
    }
    sorted[..k]
  }

  /** The sorted items are items of the counter and never repeat a word. */
  lemma SortedItems(c: Counter, sorted: seq<Entry>)
    requires c.Valid()
    requires sorted == SortByCount(c.Items())
    ensures forall i :: 0 <= i < |sorted| ==> sorted[i].0 in c.counts && sorted[i].1 == c.counts[sorted[i].0]
    ensures forall i, j :: 0 <= i < j < |sorted| ==> sorted[i].0 != sorted[j].0
  {
    var items := c.Items();
    forall i | 0 <= i < |sorted| ensures sorted[i] in items {
      assert sorted[i] in multiset(sorted);
    }
    DistinctPermutation(items, sorted);
  }

  /** An item left out of the first `k` sorted entries counts no more than any of them. */
  lemma OmittedCountLess(c: Counter, sorted: seq<Entry>, k: nat)
    requires c.Valid()
    requires sorted == SortByCount(c.Items())
    requires k <= |sorted|
    ensures forall i, w :: 0 <= i < k && w in c.counts && (w, c.counts[w]) !in sorted[..k] ==>
      c.counts[w] <= sorted[i].1
  {
    var items := c.Items();
    forall i, w | 0 <= i < k && w in c.counts && (w, c.counts[w]) !in sorted[..k]
      ensures c.counts[w] <= sorted[i].1
    {
      var x := (w, c.counts[w]);
      var ix := FirstIndex(c.keys, w);
      assert items[ix] == x;
      assert x in multiset(items);
      assert x in sorted;
      var j := FirstIndex(sorted, x);
      assert j >= k;
    }
  }

  /** A permutation of a sequence whose entries have pairwise different words
      also has pairwise different words. */
  lemma DistinctPermutation(s: seq<Entry>, t: seq<Entry>)
    requires forall i, j :: 0 <= i < j < |s| ==> s[i].0 != s[j].0
    requires multiset(s) == multiset(t)
    ensures forall i, j :: 0 <= i < j < |t| ==> t[i].0 != t[j].0
  {
    forall i, j | 0 <= i < j < |t| ensures t[i].0 != t[j].0 {
      if t[i].0 == t[j].0 {
        assert t[i] in multiset(s) && t[j] in multiset(s);
        var a, b := FirstIndex(s, t[i]), FirstIndex(s, t[j]);
        if a == b {
          assert t[i] == t[j];
          TwiceInMultiset(t, i, j);
          OnceInMultiset(s, t[i]);
          assert false;
        }
      }
    }
  }

  lemma TwiceInMultiset<T>(t: seq<T>, i: nat, j: nat)
    requires i < j < |t| && t[i] == t[j]
    ensures multiset(t)[t[i]] >= 2
  {
    assert t == t[..j] + [t[j]] + t[j + 1..];
    assert t[i] in t[..j];
  }

  lemma {:induction false} OnceInMultiset(s: seq<Entry>, x: Entry)
    requires forall i, j :: 0 <= i < j < |s| ==> s[i].0 != s[j].0
    ensures multiset(s)[x] <= 1
  {
    if s != [] {
      OnceInMultiset(s[1..], x);
      assert s == [s[0]] + s[1..];
      if s[0] == x {
        assert x !in s[1..];
      }
    }
  }
}

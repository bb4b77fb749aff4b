/** `count_word_frequency` (a `collections.Counter` over the token list) and
    the minimum-occurrence filter applied to it. */
module Frequency {
  import opened Seqs

  /** One `(word, count)` item of a counter. */
  type Entry = (string, nat)

  /** An insertion-ordered dictionary from word to count: the words in the
      order they were inserted, and the count of each. */
  datatype Counter = Counter(keys: seq<string>, counts: map<string, nat>) {

    /** Each word is listed once, and the listed words are exactly those with a count. */
    predicate Valid() {
      && Distinct(keys)
      && (forall w :: w in counts ==> w in keys)
      && (forall i :: 0 <= i < |keys| ==> keys[i] in counts)
    }

    /** Every count is at least one, as for a counter built from tokens. */
    predicate Positive() {
      forall w :: w in counts ==> counts[w] >= 1
    }

    /** `counter.items()`, in insertion order. */
    function Items(): (r: seq<Entry>)
      requires Valid()
      ensures |r| == |keys|
      ensures forall i :: 0 <= i < |r| ==> r[i] == (keys[i], counts[keys[i]])
      ensures forall i, j :: 0 <= i < j < |r| ==> r[i].0 != r[j].0
    {
      seq(|keys|, i requires 0 <= i < |keys| => (keys[i], counts[keys[i]]))
    }
  }

  const Empty := Counter([], map[])

  /** One step of counting: increment the count of `w`, inserting it at the end
      with count 1 if it is new. */
  function Add(c: Counter, w: string): (r: Counter)
    requires c.Valid()
    ensures r.Valid()
  {
    if w in c.counts then Counter(c.keys, c.counts[w := c.counts[w] + 1])
    else Counter(c.keys + [w], c.counts[w := 1])
  }

  /** `Counter(words)`: count the words one by one, in order; a word enters
      the key order the first time it is seen. */
  function CountWords(words: seq<string>): (c: Counter)
    ensures c.Valid()
    decreases |words|
  {
    if words == [] then Empty
    else Add(CountWords(words[..|words| - 1]), words[|words| - 1])
  }

  /** The keys are exactly the distinct words, each count is the word's number
      of occurrences (so at least one), and the keys are ordered by first
      occurrence. */
  lemma {:induction false} CountWordsSpec(words: seq<string>)
    ensures CountWords(words).Positive()
    ensures forall w :: w in CountWords(words).counts <==> w in words
    ensures forall w :: w in CountWords(words).counts ==> CountWords(words).counts[w] == multiset(words)[w]
    ensures forall i, j :: 0 <= i < j < |CountWords(words).keys| ==>
      FirstIndex(words, CountWords(words).keys[i]) < FirstIndex(words, CountWords(words).keys[j])
    decreases |words|
  {
    if words != [] {
      var prefix, w := words[..|words| - 1], words[|words| - 1];
      assert words == prefix + [w];
      CountWordsSpec(prefix);
      var before := CountWords(prefix);
      CountStep(prefix, w, before);
      FirstOccurrenceOrder(prefix, w, before);
    }
  }

  /** Counting one more word keeps every count equal to the number of occurrences. */
  lemma CountStep(prefix: seq<string>, w: string, before: Counter)
    requires before.Valid() && before.Positive()
    requires forall v :: v in before.counts <==> v in prefix
    requires forall v :: v in before.counts ==> before.counts[v] == multiset(prefix)[v]
    ensures Add(before, w).Positive()
    ensures forall v :: v in Add(before, w).counts <==> v in prefix + [w]
    ensures forall v :: v in Add(before, w).counts ==> Add(before, w).counts[v] == multiset(prefix + [w])[v]
  {
    assert multiset(prefix + [w]) == multiset(prefix) + multiset{w};
  }

  /** Counting one more word keeps the keys in first-occurrence order. */
  lemma FirstOccurrenceOrder(prefix: seq<string>, w: string, before: Counter)
    requires before.Valid()
    requires forall v :: v in before.counts <==> v in prefix
    requires forall i, j :: 0 <= i < j < |before.keys| ==>
      FirstIndex(prefix, before.keys[i]) < FirstIndex(prefix, before.keys[j])
    ensures forall i, j :: 0 <= i < j < |Add(before, w).keys| ==>
      FirstIndex(prefix + [w], Add(before, w).keys[i]) < FirstIndex(prefix + [w], Add(before, w).keys[j])
  {
    var after, words := Add(before, w), prefix + [w];
    forall i, j | 0 <= i < j < |after.keys|
      ensures FirstIndex(words, after.keys[i]) < FirstIndex(words, after.keys[j])
    {
      var u := before.keys[i];
      assert after.keys[i] == u && u in before.counts && u in prefix;
      FirstIndexAppend(prefix, w, u);
      if j < |before.keys| {
        var v := before.keys[j];
        assert after.keys[j] == v && v in before.counts && v in prefix;
        FirstIndexAppend(prefix, w, v);
      } else {
        assert after.keys[j] == w && w !in prefix;
        assert words[|prefix|] == w;
        assert FirstIndex(words, w) == |prefix|;
      }
    }
  }

  /** The sum of the counts of `ks`. */
  function Sum(ks: seq<string>, m: map<string, nat>): nat
    requires forall i :: 0 <= i < |ks| ==> ks[i] in m
  {
    if ks == [] then 0 else Sum(ks[..|ks| - 1], m) + m[ks[|ks| - 1]]
  }

  /** The sum of all counts of a counter. */
  function Total(c: Counter): nat
    requires c.Valid()
  {
    Sum(c.keys, c.counts)
  }

  /** Changing the count of a word that is not listed does not change the sum. */
  lemma {:induction false} SumUnlisted(ks: seq<string>, m: map<string, nat>, w: string, n: nat)
    requires forall i :: 0 <= i < |ks| ==> ks[i] in m
    requires w !in ks
    ensures Sum(ks, m[w := n]) == Sum(ks, m)
  {
    if ks != [] {
      SumUnlisted(ks[..|ks| - 1], m, w, n);
    }
  }

  /** Incrementing the count of a word listed once raises the sum by one. */
  lemma {:induction false} SumIncrement(ks: seq<string>, m: map<string, nat>, w: string)
    requires forall i :: 0 <= i < |ks| ==> ks[i] in m
    requires Distinct(ks) && w in ks
    ensures Sum(ks, m[w := m[w] + 1]) == Sum(ks, m) + 1
  {
    var init, last := ks[..|ks| - 1], ks[|ks| - 1];
    assert ks == init + [last];
    if last == w {
      assert w !in init;
      SumUnlisted(init, m, w, m[w] + 1);
    } else {
      assert w in init;
      SumIncrement(init, m, w);
    }
  }

  /** Each counting step adds one to the total. */
  lemma TotalAdd(c: Counter, w: string)
    requires c.Valid()
    ensures Total(Add(c, w)) == Total(c) + 1
  {
    if w in c.counts {
      SumIncrement(c.keys, c.counts, w);
    } else {
      var keys := c.keys + [w];
      assert keys[..|keys| - 1] == c.keys;
      SumUnlisted(c.keys, c.counts, w, 1);
    }
  }

  /** The counts add up to the number of tokens counted. */
  lemma {:induction false} TotalIsLength(words: seq<string>)
    ensures Total(CountWords(words)) == |words|
    decreases |words|
  {
    if words != [] {
      var prefix, w := words[..|words| - 1], words[|words| - 1];
      TotalIsLength(prefix);
      TotalAdd(CountWords(prefix), w);
      assert CountWords(words) == Add(CountWords(prefix), w);
    }
  }

  /** The filter condition of the comprehension on line 200. */
  function AtLeast(c: Counter, t: int): string -> bool {
    w => w in c.counts && c.counts[w] >= t
  }

  /** `Counter({word: freq for word, freq in c.items() if freq >= t})`: the entries
      whose count reaches the threshold, with their counts and relative order. */
  function Threshold(c: Counter, t: int): (r: Counter)
    requires c.Valid()
    ensures r.Valid()
    ensures forall w :: w in r.counts <==> w in c.counts && c.counts[w] >= t
    ensures forall w :: w in r.counts ==> r.counts[w] == c.counts[w]
    ensures Subsequence(r.keys, c.keys)
  {
    var keys := Filter(AtLeast(c, t), c.keys);
    FilterDistinct(AtLeast(c, t), c.keys);
    FilterIsSubsequence(AtLeast(c, t), c.keys);
    Counter(keys, map w | w in c.counts && c.counts[w] >= t :: c.counts[w])
  }

  /** With threshold 1 (the slider's default) a counter built from tokens is unchanged. */
  lemma ThresholdOneKeepsAll(c: Counter)
    requires c.Valid() && c.Positive()
    ensures Threshold(c, 1) == c
  {
    var p := AtLeast(c, 1);
    forall i | 0 <= i < |c.keys| ensures p(c.keys[i]) {
      assert c.keys[i] in c.counts;
    }
    FilterAll(p, c.keys);
    var counts := map w | w in c.counts && c.counts[w] >= 1 :: c.counts[w];
    assert counts == c.counts;
    assert Threshold(c, 1) == Counter(Filter(p, c.keys), counts);
  }

  /** Raising the threshold only removes entries: filtering at `t1` and then at a
      larger `t2` is filtering at `t2`, so the kept words shrink as `t` grows. */
  lemma ThresholdMonotone(c: Counter, t1: int, t2: int)
    requires c.Valid() && t1 <= t2
    ensures Threshold(Threshold(c, t1), t2) == Threshold(c, t2)
    ensures Threshold(c, t2).counts.Keys <= Threshold(c, t1).counts.Keys
  {
    var c1 := Threshold(c, t1);
    ThresholdKeysCompose(c, t1, t2);
    var left, right := Threshold(c1, t2), Threshold(c, t2);
    assert left.counts == right.counts;
  }

  /** The key filter of two thresholds in a row keeps what the larger one keeps. */
  lemma ThresholdKeysCompose(c: Counter, t1: int, t2: int)
    requires c.Valid() && t1 <= t2
    ensures Filter(AtLeast(Threshold(c, t1), t2), Filter(AtLeast(c, t1), c.keys)) == Filter(AtLeast(c, t2), c.keys)
  {
    var c1 := Threshold(c, t1);
    var p, q, r := AtLeast(c, t1), AtLeast(c1, t2), AtLeast(c, t2);
    forall i | 0 <= i < |c.keys| ensures r(c.keys[i]) == (p(c.keys[i]) && q(c.keys[i])) {
      var w := c.keys[i];
      assert w in c1.counts <==> p(w);
    }
    FilterFilter(p, q, r, c.keys);
  }
}

/** The worked example of the word-frequency pipeline: the tokens
    `a a a b b c` (for instance "the the the cat cat dog" under a segmenter that
    keeps ASCII words whole) count a = 3, b = 2, c = 1 in that order, and the
    minimum of 2 drops c. The words are left symbolic, so the example holds for
    any three different words. Each lemma performs one counting step on the
    previous one's result. */
module Scenarios {
  import opened Seqs
  import opened Frequency
  import Normalizer

  lemma CountOne(a: string)
    ensures CountWords([a]) == Counter([a], map[a := 1])
  {
    var s := [a];
    assert s[..0] == [];
  }

  lemma CountTwo(a: string)
    ensures CountWords([a, a]) == Counter([a], map[a := 2])
  {
    var s := [a, a];
    CountOne(a);
    assert s[..1] == [a];
    assert map[a := 1][a := 2] == map[a := 2];
  }

  lemma CountThree(a: string)
    ensures CountWords([a, a, a]) == Counter([a], map[a := 3])
  {
    var s := [a, a, a];
    CountTwo(a);
    assert s[..2] == [a, a];
    assert map[a := 2][a := 3] == map[a := 3];
  }

  lemma CountFourth(a: string, b: string)
    requires a != b
    ensures CountWords([a, a, a, b]) == Counter([a, b], map[a := 3, b := 1])
  {
    var s := [a, a, a, b];
    CountThree(a);
    assert s[..3] == [a, a, a];
  }

  lemma CountFifth(a: string, b: string)
    requires a != b
    ensures CountWords([a, a, a, b, b]) == Counter([a, b], map[a := 3, b := 2])
  {
    var s := [a, a, a, b, b];
    CountFourth(a, b);
    assert s[..4] == [a, a, a, b];
    assert map[a := 3, b := 1][b := 2] == map[a := 3, b := 2];
  }

  /** Keys in first-seen order, each with its number of occurrences. */
  lemma ExampleCounts(a: string, b: string, c: string)
    requires a != b && a != c && b != c
    ensures CountWords([a, a, a, b, b, c]) == Counter([a, b, c], map[a := 3, b := 2, c := 1])
  {
    var s := [a, a, a, b, b, c];
    CountFifth(a, b);
    assert s[..5] == [a, a, a, b, b];
  }

  /** At minimum 2, the word seen once is dropped and the order of the rest is kept. */
  lemma ExampleThreshold(a: string, b: string, c: string)
    requires a != b && a != c && b != c
    ensures Threshold(CountWords([a, a, a, b, b, c]), 2).keys == [a, b]
  {
    ExampleCounts(a, b, c);
    ExampleKeysFiltered(a, b, c);
  }

  /** The threshold's key filter on the example counter, one key at a time. */
  lemma ExampleKeysFiltered(a: string, b: string, c: string)
    requires a != b && a != c && b != c
    ensures
      var counter := Counter([a, b, c], map[a := 3, b := 2, c := 1]);
      Filter(AtLeast(counter, 2), counter.keys) == [a, b]
  {
    var counter := Counter([a, b, c], map[a := 3, b := 2, c := 1]);
    var keep := AtLeast(counter, 2);
    var last := [c];
    assert !keep(c) && last[1..] == [];
    assert Filter(keep, last) == [];
    var tail := [b, c];
    assert keep(b) && tail[1..] == last;
    assert Filter(keep, tail) == [b];
    assert keep(a) && counter.keys[1..] == tail;
  }

  /** A run of whitespace between two words becomes one space: `clean_text`
      turns `x  y` (two spaces) into `x y`, for any word characters `x`, `y`. */
  lemma CollapsesDoubleSpace(x: char, y: char)
    requires Normalizer.IsWordChar(x) && Normalizer.IsWordChar(y)
    ensures Normalizer.CleanText([x, ' ', ' ', y]) == [x, ' ', y]
  {
    var s := [x, ' ', ' ', y];
    DoubleSpaceKeepsPunctuationFree(x, y);
    DoubleSpaceSplit(x, y);
    JoinTwo([x], [y]);
    assert Normalizer.CleanText(s) == Normalizer.Join(Normalizer.Split(Normalizer.RemovePunctuation(s)));
  }

  lemma JoinTwo(a: string, b: string)
    ensures Normalizer.Join([a, b]) == a + " " + b
  {
    var ws := [a, b];
    assert ws[1..] == [b];
  }

  lemma DoubleSpaceKeepsPunctuationFree(x: char, y: char)
    requires Normalizer.IsWordChar(x) && Normalizer.IsWordChar(y)
    ensures Normalizer.RemovePunctuation([x, ' ', ' ', y]) == [x, ' ', ' ', y]
  {
    var s := [x, ' ', ' ', y];
    Normalizer.SpaceIsNotPunctuation();
    forall i | 0 <= i < |s| ensures Normalizer.NotPunctuation(s[i]) {
      assert s[i] == x || s[i] == ' ' || s[i] == y;
    }
    FilterAll(Normalizer.NotPunctuation, s);
  }

  lemma DoubleSpaceSplit(x: char, y: char)
    requires Normalizer.IsWordChar(x) && Normalizer.IsWordChar(y)
    ensures Normalizer.Split([x, ' ', ' ', y]) == [[x], [y]]
  {
    assert [x, ' ', ' ', y] == [x] + [' '] + [' ', y];
    assert [' ', y] == [] + [' '] + [y];
    Normalizer.SplitAtSpace([x], ' ', [' ', y]);
    Normalizer.SplitAtSpace([], ' ', [y]);
    Normalizer.SplitOneField([x]);
    Normalizer.SplitOneField([y]);
  }
}

/** The text normaliser `clean_text`: delete every character of a fixed
    punctuation set, then collapse whitespace with `' '.join(text.split())`. */
module Normalizer {
  import opened Seqs

  /** Python's `string.punctuation`. */
  const AsciiPunctuation: string := "!\"#$%&'()*+,-./:;<=>?@[\\]^_`{|}~"

  /** The full-width and CJK marks listed after `string.punctuation`, in the
      order written (the triangular ruler U+1F4D0, the alembic U+2697
      followed by the text variation selector U+FE0E, and a second '.' included). */
  const ExtraPunctuation: string :=
      "\U{FF01}\U{FF1F}\U{FF61}\U{FF02}\U{FF03}\U{FF04}\U{FF05}\U{FF06}\U{FF07}\U{FF08}" +
      "\U{FF09}\U{FF0A}\U{FF0B}\U{FF0C}\U{FF0D}\U{FF0F}\U{FF1A}\U{FF1B}\U{FF1C}\U{FF1D}" +
      "\U{FF1E}\U{FF20}\U{FF3B}\U{FF3C}\U{FF3D}\U{FF3E}\U{FF3F}\U{FF40}\U{FF5B}\U{FF5C}" +
      "\U{FF5D}\U{FF5E}\U{FF5F}\U{1F4D0}\U{FF62}\U{FF63}\U{3001}\U{3003}\U{3008}\U{3009}" +
      "\U{300A}\U{300B}\U{300C}\U{300D}\U{300E}\U{300F}\U{3010}\U{3011}\U{3014}\U{3015}" +
      "\U{3016}\U{3017}\U{3018}\U{3019}\U{301A}\U{301B}\U{301C}\U{301D}\U{301E}\U{301F}" +
      "\U{2697}\U{FE0E}\U{303E}\U{303F}\U{2013}\U{2014}\U{2018}\U{2019}\U{201B}\U{201C}" +
      "\U{201D}\U{201E}\U{201F}\U{2026}\U{2027}\U{FE4F}\U{002E}"

  /** The character class of the removal pattern: `re.escape` makes every
      character of the concatenation a literal member, so no ranges arise. */
  const Punctuation: string := AsciiPunctuation + ExtraPunctuation

  predicate IsPunctuation(c: char) {
    c in Punctuation
  }

  /** Python's `str.isspace` on one code point, which is also the separator
      set of the argument-less `str.split()`. */
  predicate IsSpace(c: char) {
    || '\t' <= c <= '\r'
    || '\U{1C}' <= c <= '\U{1F}'
    || c == ' ' || c == '\U{85}' || c == '\U{A0}' || c == '\U{1680}'
    || '\U{2000}' <= c <= '\U{200A}'
    || c == '\U{2028}' || c == '\U{2029}' || c == '\U{202F}' || c == '\U{205F}'
    || c == '\U{3000}'
  }

  predicate NotPunctuation(c: char) { !IsPunctuation(c) }

  /** The separator that `' '.join` inserts is not one of the removed characters. */
  lemma SpaceIsNotPunctuation()
    ensures NotPunctuation(' ')
  {
    assert ' ' !in AsciiPunctuation;
    SpaceIsNotExtraPunctuation();
  }

  lemma SpaceIsNotExtraPunctuation()
    ensures ' ' !in ExtraPunctuation
  {}

  predicate NotSpace(c: char) { !IsSpace(c) }

  /** A character that survives normalisation unchanged: neither punctuation nor whitespace. */
  predicate IsWordChar(c: char) { !IsPunctuation(c) && !IsSpace(c) }

  /** Every character of `s` satisfies `p`. */
  predicate Every(p: char -> bool, s: string) {
    forall i :: 0 <= i < |s| ==> p(s[i])
  }

  /** One field of `str.split()`: non-empty and free of whitespace. */
  predicate IsField(w: string) {
    |w| > 0 && Every(NotSpace, w)
  }

  /** The shape `' '.join(t.split())` always has: every whitespace character is an
      ASCII space with a non-whitespace character on each side, so there is no
      leading or trailing whitespace and no run of two separators. */
  predicate Collapsed(s: string) {
    forall i :: 0 <= i < |s| && IsSpace(s[i]) ==>
      s[i] == ' ' && 0 < i < |s| - 1 && !IsSpace(s[i - 1]) && !IsSpace(s[i + 1])
  }

  /** The substitution `re.sub('[...]+', '', text)`: deleting maximal runs of
      punctuation deletes exactly the punctuation characters. */
  function RemovePunctuation(text: string): (r: string)
    ensures Every(NotPunctuation, r)
    ensures Subsequence(r, text)
    ensures forall c :: multiset(r)[c] == if IsPunctuation(c) then 0 else multiset(text)[c]
  {
    var r := Filter(NotPunctuation, text);
    FilterIsSubsequence(NotPunctuation, text);
    forall c ensures multiset(r)[c] == if IsPunctuation(c) then 0 else multiset(text)[c] {
      FilterMultiset(NotPunctuation, text, c);
    }
    r
  }

  /** Length of the leading whitespace-free part of `s`. */
  function LeadingRun(s: string): (n: nat)
    ensures n <= |s|
    ensures Every(NotSpace, s[..n])
    ensures n < |s| ==> IsSpace(s[n])
  {
    if s == [] || IsSpace(s[0]) then 0 else 1 + LeadingRun(s[1..])
  }

  /** `s.split()` with no argument: the maximal whitespace-free runs of `s`. */
  function Split(s: string): (ws: seq<string>)
    ensures forall k :: 0 <= k < |ws| ==> IsField(ws[k])
    decreases |s|
  {
    if s == [] then []
    else if IsSpace(s[0]) then Split(s[1..])
    else
      var n := LeadingRun(s);
      [s[..n]] + Split(s[n..])
  }

  /** `' '.join(ws)`: the fields with one separator between each pair of neighbours. */
  function Join(ws: seq<string>): (r: string)
    ensures |r| == |Concat(ws)| + (if ws == [] then 0 else |ws| - 1)
  {
    if ws == [] then ""
    else if |ws| == 1 then
      assert Concat(ws) == ws[0] + Concat([]);
      ws[0]
    else
      assert Concat(ws) == ws[0] + Concat(ws[1..]);
      ws[0] + " " + Join(ws[1..])
  }

  /** All fields laid end to end, without separators. */
  function Concat(ws: seq<string>): string {
    if ws == [] then "" else ws[0] + Concat(ws[1..])
  }

  /** `clean_text`: no punctuation left, single spaces between words, and the
      words are exactly the whitespace-separated words of the text once its
      punctuation is deleted. By `JoinSplitCollapsed` and `SplitAtSpace` these
      three facts fix the output string. */
  function CleanText(text: string): (r: string)
    ensures Every(NotPunctuation, r)
    ensures Collapsed(r)
    ensures Split(r) == Split(RemovePunctuation(text))
  {
    CleanTextShape(text);
    SplitJoin(Split(RemovePunctuation(text)));
    Join(Split(RemovePunctuation(text)))
  }

  lemma {:induction false} CleanTextShape(text: string)
    ensures Every(NotPunctuation, Join(Split(RemovePunctuation(text))))
    ensures Collapsed(Join(Split(RemovePunctuation(text))))
  {
    var t := RemovePunctuation(text);
    SpaceIsNotPunctuation();
    SplitJoinEvery(NotPunctuation, t);
    JoinCollapsed(Split(t));
  }

  // ---------------------------------------------------------------------
  // Split and Join

  lemma {:induction false} SplitEvery(p: char -> bool, s: string)
    requires Every(p, s)
    ensures forall k :: 0 <= k < |Split(s)| ==> Every(p, Split(s)[k])
    decreases |s|
  {
    if s != [] {
      if IsSpace(s[0]) {
        SplitEvery(p, s[1..]);
      } else {
        var n := LeadingRun(s);
        SplitEvery(p, s[n..]);
        assert Every(p, s[..n]);
      }
    }
  }

  /** Collapsing whitespace introduces no character a predicate rejects, if it accepts ' '. */
  lemma {:induction false} SplitJoinEvery(p: char -> bool, s: string)
    requires p(' ')
    requires Every(p, s)
    ensures Every(p, Join(Split(s)))
  {
    SplitEvery(p, s);
    JoinEvery(p, Split(s));
  }

  lemma {:induction false} JoinEvery(p: char -> bool, ws: seq<string>)
    requires p(' ')
    requires forall k :: 0 <= k < |ws| ==> Every(p, ws[k])
    ensures Every(p, Join(ws))
  {
    if |ws| > 1 {
      JoinEvery(p, ws[1..]);
      var j := Join(ws[1..]);
      assert Join(ws) == ws[0] + " " + j;
      forall i | 0 <= i < |Join(ws)| ensures p(Join(ws)[i]) {
        if i < |ws[0]| {
          assert Join(ws)[i] == ws[0][i];
        } else if i > |ws[0]| {
          assert Join(ws)[i] == j[i - |ws[0]| - 1];
        }
      }
    }
  }

  /** Joining non-empty fields starts with the first field's first character
      and ends with the last field's last character. */
  lemma {:induction false} JoinEnds(ws: seq<string>)
    requires |ws| > 0
    requires forall k :: 0 <= k < |ws| ==> |ws[k]| > 0
    ensures |Join(ws)| > 0
    ensures Join(ws)[0] == ws[0][0]
    ensures Join(ws)[|Join(ws)| - 1] == ws[|ws| - 1][|ws[|ws| - 1]| - 1]
  {
    if |ws| > 1 {
      JoinEnds(ws[1..]);
    }
  }

  lemma {:induction false} JoinCollapsed(ws: seq<string>)
    requires forall k :: 0 <= k < |ws| ==> IsField(ws[k])
    ensures Collapsed(Join(ws))
  {
    if |ws| == 1 {
      assert Every(NotSpace, ws[0]);
    } else if |ws| > 1 {
      var w, j := ws[0], Join(ws[1..]);
      JoinCollapsed(ws[1..]);
      JoinEnds(ws[1..]);
      var s := Join(ws);
      assert s == w + " " + j;
      assert IsField(w);
      forall i | 0 <= i < |s| && IsSpace(s[i])
        ensures s[i] == ' ' && 0 < i < |s| - 1 && !IsSpace(s[i - 1]) && !IsSpace(s[i + 1])
      {
        if i < |w| {
          assert false;
        } else if i == |w| {
          assert s[i - 1] == w[|w| - 1];
          assert s[i + 1] == j[0];
        } else {
          var t := i - |w| - 1;
          assert s[i] == j[t];
          if t > 0 {
            assert s[i - 1] == j[t - 1];
          }
          assert s[i + 1] == j[t + 1];
        }
      }
    }
  }

  lemma {:induction false} LeadingRunOfField(w: string, rest: string)
    requires Every(NotSpace, w)
    requires rest == [] || IsSpace(rest[0])
    ensures LeadingRun(w + rest) == |w|
  {
    if w != [] {
      assert (w + rest)[1..] == w[1..] + rest;
      LeadingRunOfField(w[1..], rest);
    } else {
      assert w + rest == rest;
    }
  }

  /** Splitting a joined list of fields gives the fields back. */
  lemma {:induction false} SplitJoin(ws: seq<string>)
    requires forall k :: 0 <= k < |ws| ==> IsField(ws[k])
    ensures Split(Join(ws)) == ws
  {
    if |ws| == 1 {
      var w := ws[0];
      LeadingRunOfField(w, []);
      assert w + [] == w;
      assert w[..|w|] == w && w[|w|..] == [];
    } else if |ws| > 1 {
      var w, j := ws[0], Join(ws[1..]);
      SplitJoin(ws[1..]);
      assert Join(ws) == w + " " + j;
      SplitField(w, j);
    }
  }

  /** A field followed by a space splits off as the first field. */
  lemma SplitField(w: string, j: string)
    requires IsField(w)
    ensures Split(w + " " + j) == [w] + Split(j)
  {
    assert w + " " + j == w + (" " + j);
    SplitFieldHead(w, " " + j);
    SplitSpaceHead(' ', j);
  }

  /** `str.split()` cuts at every whitespace character: the fields of `a + [c] + b`
      for a whitespace `c` are the fields of `a` followed by those of `b`. With
      `SplitOneField` and `Split("") == []` this determines the fields of every
      string: they are its maximal whitespace-free runs, however long the
      whitespace between them. */
  lemma {:induction false} SplitAtSpace(a: string, c: char, b: string)
    requires IsSpace(c)
    ensures Split(a + [c] + b) == Split(a) + Split(b)
    decreases |a|
  {
    if a == [] {
      assert a + [c] + b == [c] + b;
      SplitSpaceHead(c, b);
    } else if IsSpace(a[0]) {
      assert a == [a[0]] + a[1..];
      SplitAtSpace(a[1..], c, b);
      SplitAtSpaceAfterSpace(a[0], a[1..], c, b);
    } else {
      var m := LeadingRun(a);
      var w, rest := a[..m], a[m..];
      assert a == w + rest;
      SplitAtSpace(rest, c, b);
      SplitAtSpaceAfterField(w, rest, c, b);
    }
  }

  /** The step of `SplitAtSpace` past a leading whitespace character `x` of `a == [x] + rest`. */
  lemma SplitAtSpaceAfterSpace(x: char, rest: string, c: char, b: string)
    requires IsSpace(x)
    requires Split(rest + [c] + b) == Split(rest) + Split(b)
    ensures Split([x] + rest + [c] + b) == Split([x] + rest) + Split(b)
  {
    var t := rest + [c] + b;
    assert [x] + rest + [c] + b == [x] + t;
    SplitSpaceHead(x, t);
    SplitSpaceHead(x, rest);
  }

  /** The step of `SplitAtSpace` past a leading field `w` of `a == w + rest`. */
  lemma SplitAtSpaceAfterField(w: string, rest: string, c: char, b: string)
    requires IsSpace(c) && IsField(w) && (rest == [] || IsSpace(rest[0]))
    requires Split(rest + [c] + b) == Split(rest) + Split(b)
    ensures Split(w + rest + [c] + b) == Split(w + rest) + Split(b)
  {
    var t := rest + [c] + b;
    if rest == [] {
      assert t[0] == c;
    } else {
      assert t[0] == rest[0];
    }
    assert w + rest + [c] + b == w + t;
    calc {
      Split(w + t);
      { SplitFieldHead(w, t); }
      [w] + Split(t);
      [w] + (Split(rest) + Split(b));
      { SplitFieldHead(w, rest); }
      Split(w + rest) + Split(b);
    }
  }

  /** Leading whitespace produces no field. */
  lemma SplitSpaceHead(c: char, b: string)
    requires IsSpace(c)
    ensures Split([c] + b) == Split(b)
  {
    assert ([c] + b)[1..] == b;
  }

  /** A field followed by whitespace or by nothing splits off as the first field. */
  lemma SplitFieldHead(w: string, rest: string)
    requires IsField(w)
    requires rest == [] || IsSpace(rest[0])
    ensures Split(w + rest) == [w] + Split(rest)
  {
    var s := w + rest;
    LeadingRunOfField(w, rest);
    assert s[..|w|] == w && s[|w|..] == rest;
  }

  /** A single whitespace-free, non-empty word splits into itself. */
  lemma SplitOneField(w: string)
    requires IsField(w)
    ensures Split(w) == [w]
  {
    SplitJoin([w]);
  }

  /** The non-whitespace characters of `s`, in order, are its fields laid end to end. */
  lemma {:induction false} ConcatSplit(s: string)
    ensures Concat(Split(s)) == Filter(NotSpace, s)
    decreases |s|
  {
    if s != [] {
      if IsSpace(s[0]) {
        ConcatSplit(s[1..]);
      } else {
        var n := LeadingRun(s);
        ConcatSplit(s[n..]);
        assert s == s[..n] + s[n..];
        FilterAppend(NotSpace, s[..n], s[n..]);
        FilterAll(NotSpace, s[..n]);
        assert Split(s) == [s[..n]] + Split(s[n..]);
      }
    }
  }

  /** Joining whitespace-free fields adds only whitespace. */
  lemma {:induction false} FilterJoin(ws: seq<string>)
    requires forall k :: 0 <= k < |ws| ==> IsField(ws[k])
    ensures Filter(NotSpace, Join(ws)) == Concat(ws)
  {
    if |ws| == 1 {
      FilterAll(NotSpace, ws[0]);
      assert Concat(ws) == ws[0] + "";
    } else if |ws| > 1 {
      var w, j := ws[0], Join(ws[1..]);
      FilterJoin(ws[1..]);
      assert Join(ws) == (w + " ") + j;
      FilterAppend(NotSpace, w + " ", j);
      FilterFieldSpace(w);
      assert Concat(ws) == w + Concat(ws[1..]);
    }
  }

  /** A field followed by its separating space loses just the space. */
  lemma FilterFieldSpace(w: string)
    requires IsField(w)
    ensures Filter(NotSpace, w + " ") == w
  {
    FilterAppend(NotSpace, w, " ");
    FilterAll(NotSpace, w);
    assert Filter(NotSpace, " ") == [];
  }

  // ---------------------------------------------------------------------
  // Properties of clean_text

  /** Every character that is neither punctuation nor whitespace survives, in
      order, and nothing else does: the non-whitespace characters of the
      result are exactly those of the input with the punctuation deleted. */
  lemma CleanTextKeepsWordChars(text: string)
    ensures Filter(NotSpace, CleanText(text)) == Filter(IsWordChar, text)
  {
    var t := RemovePunctuation(text);
    FilterJoin(Split(t));
    ConcatSplit(t);
    FilterFilter(NotPunctuation, NotSpace, IsWordChar, text);
  }

  /** Text that is punctuation-free and collapsed is left as it is. */
  lemma {:induction false} CleanTextFixesCollapsed(s: string)
    requires Every(NotPunctuation, s)
    requires Collapsed(s)
    ensures CleanText(s) == s
  {
    FilterAll(NotPunctuation, s);
    JoinSplitCollapsed(s);
  }

  /** What follows a separator of a collapsed string is collapsed. */
  lemma CollapsedSuffix(s: string, k: nat)
    requires Collapsed(s) && 0 < k <= |s| && IsSpace(s[k - 1])
    ensures Collapsed(s[k..])
  {
    var tail := s[k..];
    forall i | 0 <= i < |tail| && IsSpace(tail[i])
      ensures tail[i] == ' ' && 0 < i < |tail| - 1 && !IsSpace(tail[i - 1]) && !IsSpace(tail[i + 1])
    {
      assert tail[i] == s[k + i];
    }
  }

  lemma {:induction false} JoinSplitCollapsed(s: string)
    requires Collapsed(s)
    ensures Join(Split(s)) == s
    decreases |s|
  {
    if s != [] {
      assert !IsSpace(s[0]);
      var n := LeadingRun(s);
      var rest := s[n..];
      if n == |s| {
        assert rest == [];
        assert s[..n] == s;
      } else {
        assert s[n] == ' ' && n < |s| - 1 && !IsSpace(s[n + 1]);
        var tail := s[n + 1..];
        assert rest[1..] == tail;
        CollapsedSuffix(s, n + 1);
        JoinSplitCollapsed(tail);
        assert Split(rest) == Split(tail);
        assert |Split(tail)| > 0;
        assert Split(s) == [s[..n]] + Split(tail);
        assert s == s[..n] + " " + tail;
      }
    }
  }

  /** `clean_text(clean_text(t)) == clean_text(t)`. */
  lemma CleanTextIdempotent(text: string)
    ensures CleanText(CleanText(text)) == CleanText(text)
  {
    CleanTextFixesCollapsed(CleanText(text));
  }
}

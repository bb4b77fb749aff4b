/** The token filter of `word_segmentation`. The segmenter itself
    (`jieba.lcut`) is dictionary-driven code outside the model; the caller
    supplies it as a function from text to tokens. */
module Tokenizer {
  import opened Seqs
  import Normalizer

  /** `word.isspace()`: true only for a non-empty word made entirely of whitespace. */
  predicate IsBlank(w: string) {
    |w| > 0 && forall i :: 0 <= i < |w| ==> Normalizer.IsSpace(w[i])
  }

  /** The two whitespace notions of the program agree: `word.isspace()` holds
      exactly when the word is non-empty and `word.split()` finds no field in it. */
  lemma BlankIffNoFields(w: string)
    ensures IsBlank(w) <==> |w| > 0 && Normalizer.Split(w) == []
  {
    Normalizer.ConcatSplit(w);
    if IsBlank(w) {
      FilterNone(Normalizer.NotSpace, w);
    }
  }

  /** The condition of the list comprehension: `len(word) > 1 and not word.isspace()`. */
  predicate KeepToken(w: string) {
    |w| > 1 && !IsBlank(w)
  }

  /** `word_segmentation(text)`: the segmenter's tokens with the one-character and
      all-whitespace ones dropped. Every surviving token has length at least two;
      the survivors keep their order; a kept token occurs exactly as often as the
      segmenter produced it and a dropped one not at all. */
  function WordSegmentation(lcut: string -> seq<string>, text: string): (r: seq<string>)
    ensures forall i :: 0 <= i < |r| ==> |r[i]| >= 2 && !IsBlank(r[i])
    ensures Subsequence(r, lcut(text))
    ensures forall w :: multiset(r)[w] == if KeepToken(w) then multiset(lcut(text))[w] else 0
  {
    var tokens := lcut(text);
    FilterIsSubsequence(KeepToken, tokens);
    forall w ensures multiset(Filter(KeepToken, tokens))[w] == if KeepToken(w) then multiset(tokens)[w] else 0 {
      FilterMultiset(KeepToken, tokens, w);
    }
    Filter(KeepToken, tokens)
  }
}

/** How the script wires the stages together once the page text is in hand:
    clean, segment, count, filter by the slider's minimum, hand the FILTERED
    counter to the chosen adapter, and rank the UNFILTERED counter for the
    top-20 table. */
module Pipeline {
  import opened Seqs
  import opened Frequency
  import Normalizer
  import Tokenizer
  import Ranking
  import Charts

  /** The chart-type selector's seven options, in menu order. */
  datatype ChartKind = WordCloud | Bar | Line | Pie | Scatter | Radar | HeatMap

  /** The data one adapter draws. */
  datatype Chart =
    | WordCloudChart(pairs: seq<Entry>)
    | BarChart(words: seq<string>, freqs: seq<nat>)
    | LineChart(xs: seq<string>, ys: seq<nat>)
    | PieChart(slices: seq<Entry>)
    | ScatterChart(xs: seq<string>, ys: seq<nat>)
    | RadarChart(radar: Charts.RadarData)
    | HeatMapChart(heat: Charts.HeatMapData)

  /** What one run shows: the chart, when there is one, and the top-20 table. */
  datatype Report = Report(chart: Option<Chart>, table: seq<Entry>)

  /** `count_word_frequency(word_segmentation(clean_text(text)))`. */
  function Frequencies(lcut: string -> seq<string>, text: string): (c: Counter)
    ensures c.Valid() && c.Positive()
    ensures forall w :: w in c.counts ==> |w| >= 2 && w in lcut(Normalizer.CleanText(text))
    ensures forall w :: w in c.counts <==> Tokenizer.KeepToken(w) && w in lcut(Normalizer.CleanText(text))
    ensures forall w :: w in c.counts ==> c.counts[w] == multiset(lcut(Normalizer.CleanText(text)))[w]
  {
    var raw := lcut(Normalizer.CleanText(text));
    var tokens := Tokenizer.WordSegmentation(lcut, Normalizer.CleanText(text));
    var c := CountWords(tokens);
    CountWordsSpec(tokens);
    FrequenciesKeys(raw, tokens, c);
    c
  }

  /** How the counter's keys and counts relate to the segmenter's raw tokens. */
  lemma FrequenciesKeys(raw: seq<string>, tokens: seq<string>, c: Counter)
    requires forall w :: multiset(tokens)[w] == if Tokenizer.KeepToken(w) then multiset(raw)[w] else 0
    requires forall w :: w in c.counts <==> w in tokens
    requires forall w :: w in c.counts ==> c.counts[w] == multiset(tokens)[w]
    ensures forall w :: w in c.counts ==> |w| >= 2 && w in raw
    ensures forall w :: w in c.counts <==> Tokenizer.KeepToken(w) && w in raw
    ensures forall w :: w in c.counts ==> c.counts[w] == multiset(raw)[w]
  {
    forall w ensures w in c.counts <==> Tokenizer.KeepToken(w) && w in raw {
      assert w in tokens <==> multiset(tokens)[w] > 0;
      assert w in raw <==> multiset(raw)[w] > 0;
    }
  }

  /** `chart_functions[chart_type](filtered_words)`, keeping only what is drawn.
      The bar adapter draws through `st.pyplot` and returns nothing, so its bars
      are reported here as drawn; the radar adapter's `None` means nothing is drawn. */
  function Draw(kind: ChartKind, filtered: Counter): (r: Option<Chart>)
    requires filtered.Valid()
    ensures r.None? <==> kind == Radar && filtered.keys == []
  {
    match kind
    case WordCloud => Some(WordCloudChart(filtered.Items()))
    case Bar =>
      var bars := Charts.BarData(filtered);
      Some(BarChart(bars.0, bars.1))
    case Line =>
      var series := Charts.Series(filtered);
      Some(LineChart(series.0, series.1))
    case Pie => Some(PieChart(Charts.PieData(filtered)))
    case Scatter =>
      var series := Charts.Series(filtered);
      Some(ScatterChart(series.0, series.1))
    case Radar =>
      (match Charts.RadarChart(filtered)
       case None => None
       case Some(d) => Some(RadarChart(d)))
    case HeatMap => Some(HeatMapChart(Charts.HeatMap(filtered)))
  }

  /** One run of the script on page text `text` (`if text_content:` treats the
      empty string as nothing to analyse), slider value `minOccurrences` and
      chart type `kind`. */
  function Analyze(lcut: string -> seq<string>, text: string, minOccurrences: int, kind: ChartKind): (r: Option<Report>)
    ensures r.None? <==> text == ""
    ensures r.Some? ==>
      (r.value.chart.None? <==> kind == Radar && Threshold(Frequencies(lcut, text), minOccurrences).keys == [])
    ensures r.Some? ==> |r.value.table| == Min(Charts.TopN, |Frequencies(lcut, text).keys|)
  {
    if text == "" then None
    else
      var wordFreq := Frequencies(lcut, text);
      var filtered := Threshold(wordFreq, minOccurrences);
      Some(Report(Draw(kind, filtered), Ranking.MostCommon(wordFreq, Charts.TopN)))
  }

  /** The table ranks the unfiltered counter: neither the slider nor the chart
      type changes it. */
  lemma TableIgnoresSettings(lcut: string -> seq<string>, text: string, t1: int, t2: int, k1: ChartKind, k2: ChartKind)
    requires text != ""
    ensures Analyze(lcut, text, t1, k1).value.table == Analyze(lcut, text, t2, k2).value.table
  {}

  /** Every word in the table is a segmenter token of the cleaned text, at least
      two characters long, listed with its full, unfiltered count. */
  lemma TableWordsAreTokens(lcut: string -> seq<string>, text: string, t: int, k: ChartKind)
    requires text != ""
    ensures forall i :: 0 <= i < |Analyze(lcut, text, t, k).value.table| ==>
      var (w, n) := Analyze(lcut, text, t, k).value.table[i];
      |w| >= 2 && w in lcut(Normalizer.CleanText(text)) && n >= 1
  {}

  /** The bar chart ranks the FILTERED counter; only at threshold 1, where the
      filter keeps everything, do its bars coincide with the table's rows. */
  lemma BarMatchesTableAtThresholdOne(lcut: string -> seq<string>, text: string)
    requires text != ""
    ensures Analyze(lcut, text, 1, Bar).value.chart.Some?
    ensures
      var r := Analyze(lcut, text, 1, Bar).value;
      && |r.chart.value.words| == |r.table|
      && forall i :: 0 <= i < |r.table| ==> r.chart.value.words[i] == r.table[i].0 && r.chart.value.freqs[i] == r.table[i].1
  {
    AnalyzeUnfold(lcut, text, 1, Bar);
    BarsAtThresholdOne(Frequencies(lcut, text));
  }

  /** A run on non-empty text draws the filtered counter and tabulates the unfiltered one. */
  lemma AnalyzeUnfold(lcut: string -> seq<string>, text: string, t: int, k: ChartKind)
    requires text != ""
    ensures Analyze(lcut, text, t, k) == Some(Report(Draw(k, Threshold(Frequencies(lcut, text), t)), Ranking.MostCommon(Frequencies(lcut, text), Charts.TopN)))
  {}

  /** At threshold 1 the bars drawn for a counter built from tokens are its ranking. */
  lemma BarsAtThresholdOne(c: Counter)
    requires c.Valid() && c.Positive()
    ensures Draw(Bar, Threshold(c, 1)).Some?
    ensures
      var bars, top := Draw(Bar, Threshold(c, 1)).value, Ranking.MostCommon(c, Charts.TopN);
      && |bars.words| == |top|
      && forall i :: 0 <= i < |top| ==> bars.words[i] == top[i].0 && bars.freqs[i] == top[i].1
  {
    ThresholdOneKeepsAll(c);
  }

  /** Above threshold 1 the bars hold only words that reach the threshold, while
      the table may still list words below it. */
  lemma BarRespectsThreshold(lcut: string -> seq<string>, text: string, t: int)
    requires text != ""
    ensures Analyze(lcut, text, t, Bar).value.chart.Some?
    ensures
      var bars := Analyze(lcut, text, t, Bar).value.chart.value;
      forall i :: 0 <= i < |bars.freqs| ==> bars.freqs[i] >= t
  {}
}
